/** What a signature stands for: when verification succeeds, and what a signature cannot be used for
    (src/support.rs, macros/src/runtime/expand.rs). */
module Signatures {
  import opened Types
  import opened ScaleNumbers
  import opened Scale
  import opened RuntimeSpec
  import opened Nonces

  /** The bytes are, one after the other and with nothing left, the extrinsic's own signer, nonce and call. */
  predicate SignsFor(p: Bytes, e: Extrinsic) {
    && DecodeAccount(p).Parsed? && DecodeAccount(p).value == e.signer
    && var q := DecodeAccount(p).rest;
       && DecodeU32(q).Parsed? && DecodeU32(q).value == e.nonce
       && DecodeCall(DecodeU32(q).rest) == Parsed(e.call, [])
  }

  /** There is exactly one such byte string. */
  lemma SignsForOne(p: Bytes, e: Extrinsic)
    ensures SignsFor(p, e) <==> p == SignedPayload(e.signer, e.nonce, e.call)
  {
    PayloadParses(e.signer, e.nonce, e.call);
    if SignsFor(p, e) {
      var q := DecodeAccount(p).rest;
      U32Canonical(q);
      CallCanonical(DecodeU32(q).rest);
      Untailed(EncodeCall(e.call));
      Assoc(e.signer.bytes, EncodeU32(e.nonce), EncodeCall(e.call));
    }
  }

  /** An extrinsic is validly signed if and only if its signer's key is valid and the key verifies the signature
      over bytes that parse to exactly its signer, its nonce and its call; an invalid key is found first. */
  lemma VerifyExactly(c: Crypto, e: Extrinsic)
    ensures Verify(c, e) == Ok <==>
            c.validKey(e.signer.bytes) && exists p :: SignsFor(p, e) && c.verifies(e.signer.bytes, p, e.signature)
    ensures Verify(c, e) == Err("invalid public key") <==> !c.validKey(e.signer.bytes)
    ensures Verify(c, e) in {Ok, Err("invalid public key"), Err("invalid signature")}
  {
    assert |"invalid public key"| > |"invalid signature"|;
    var own := SignedPayload(e.signer, e.nonce, e.call);
    SignsForOne(own, e);
    if p :| SignsFor(p, e) && c.verifies(e.signer.bytes, p, e.signature) { SignsForOne(p, e); }
  }

  // ---- only what is signed runs ------------------------------------------------------------------

  /** Every accepted extrinsic is one of the block's, validly signed. */
  ghost predicate AllVerified(c: Crypto, acc: seq<Extrinsic>, es: seq<Extrinsic>) {
    forall i :: 0 <= i < |acc| ==> acc[i] in es && Verify(c, acc[i]) == Ok
  }

  lemma VerifiedSnoc(c: Crypto, acc: seq<Extrinsic>, es: seq<Extrinsic>, e: Extrinsic, more: seq<Extrinsic>)
    requires AllVerified(c, acc, es) && (more == [] || (more == [e] && Verify(c, e) == Ok))
    ensures AllVerified(c, acc + more, es + [e])
  {}

  lemma {:induction false} PassVerifies(c: Crypto, s: State, es: seq<Extrinsic>)
    ensures AllVerified(c, Accepted(OnePass(c, s, es).receipts), es)
  {
    if es != [] {
      var init, e := es[..|es| - 1], es[|es| - 1];
      PassVerifies(c, s, init);
      var x := OnePass(c, s, init);
      var more := if x.end.Returned? then Step(x.state, e, Verify(c, e)).receipts else [];
      if x.end.Returned? { StepAccepts(x.state, e, Verify(c, e)); }
      AcceptedConcat(x.receipts, more);
      VerifiedSnoc(c, Accepted(x.receipts), init, e, Accepted(more));
      Rejoin(es);
      Untailed(x.receipts);
    }
  }

  lemma BlockVerifies(c: Crypto, s: State, b: Block)
    ensures AllVerified(c, Accepted(ExecuteBlock(c, s, b).receipts), b.extrinsics)
  {
    if s.height < U32_MAX && b.header.blockNumber == s.height + 1 {
      var t := s.(height := s.height + 1);
      BlockIsLoop(c, s, b);
      TwoPassesRefineOne(c, t, b.extrinsics, Whole);
      PassVerifies(c, t, b.extrinsics);
    } else {
      BlockIsRefused(c, s, b);
    }
  }

  ghost predicate OnlyVerified(c: Crypto, acc: seq<Extrinsic>) {
    forall i :: 0 <= i < |acc| ==> Verify(c, acc[i]) == Ok
  }

  /** Over any run of blocks, whatever is accepted is validly signed. */
  lemma {:induction false} RunVerifies(c: Crypto, s: State, bs: seq<Block>)
    ensures OnlyVerified(c, Accepted(Run(c, s, bs).receipts))
  {
    if bs != [] {
      var n := |bs| - 1;
      RunVerifies(c, s, bs[..n]);
      var x := Run(c, s, bs[..n]);
      if x.end.Returned? {
        BlockVerifies(c, x.state, bs[n]);
        AcceptedConcat(x.receipts, ExecuteBlock(c, x.state, bs[n]).receipts);
      }
    }
  }

  /** The signature verifies over one byte string only, whatever the key. */
  ghost predicate SignsOnce(c: Crypto, signature: Bytes64) {
    forall k: Bytes32, p, l: Bytes32, q :: c.verifies(k, p, signature) && c.verifies(l, q, signature) ==> p == q
  }

  lemma SameSigned(c: Crypto, e: Extrinsic, f: Extrinsic)
    requires Verify(c, e) == Ok && Verify(c, f) == Ok && e.signature == f.signature && SignsOnce(c, e.signature)
    ensures e == f
  {
    VerifyExactly(c, e);
    VerifyExactly(c, f);
    var p :| SignsFor(p, e) && c.verifies(e.signer.bytes, p, e.signature);
    var q :| SignsFor(q, f) && c.verifies(f.signer.bytes, q, f.signature);
    assert p == q;
  }

  /** A signature made for one extrinsic lets no other run, in any run of blocks: not another signer's, not the
      same call at a later nonce, not another call. */
  lemma SignatureNotReused(c: Crypto, s: State, bs: seq<Block>, e: Extrinsic, f: Extrinsic)
    requires Verify(c, e) == Ok && SignsOnce(c, e.signature)
    requires f.signature == e.signature && f != e
    ensures Verify(c, f) != Ok
    ensures f !in Accepted(Run(c, s, bs).receipts)
  {
    RunVerifies(c, s, bs);
    if Verify(c, f) == Ok { SameSigned(c, e, f); }
  }
}
