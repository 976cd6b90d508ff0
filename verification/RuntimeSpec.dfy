/** What the runtime computes: the pallet calls, the per-extrinsic step and `execute_block`, each with
    the writes it sends to the store, in order (macros/src/runtime/expand.rs, src/balances.rs,
    src/proof_of_existence.rs, src/system.rs, src/lib.rs). */
module RuntimeSpec {
  import opened Types
  import opened Storage
  import Scale

  /** Ed25519 (section 5.1.7 of RFC 8032) as two pure predicates. */
  datatype Crypto = Crypto(validKey: Bytes32 -> bool, verifies: (Bytes32, Bytes, Bytes64) -> bool)

  function Verify(c: Crypto, e: Extrinsic): DispatchResult {
    if !c.validKey(e.signer.bytes) then Err("invalid public key")
    else if c.verifies(e.signer.bytes, Scale.SignedPayload(e.signer, e.nonce, e.call), e.signature) then Ok
    else Err("invalid signature")
  }

  function VerifyBatch(c: Crypto, es: seq<Extrinsic>): (rs: seq<DispatchResult>)
    ensures |rs| == |es|
  {
    seq(|es|, i requires 0 <= i < |es| => Verify(c, es[i]))
  }

  // ---- pallet calls ------------------------------------------------------------------------------

  datatype Effect = Effect(state: State, writes: seq<Write>, result: DispatchResult)

  /** Both balances are read before either is written. */
  function TransferEffect(s: State, caller: AccountId32, to: AccountId32, amount: U128): Effect {
    var callerBalance := BalanceOf(s.balances, caller);
    var toBalance := BalanceOf(s.balances, to);
    if callerBalance < amount then Effect(s, [], Err("Not enough funds."))
    else if toBalance + amount > U128_MAX then Effect(s, [], Err("Overflow"))
    else
      Effect(s.(balances := s.balances[caller := callerBalance - amount][to := toBalance + amount]),
             [PutBalance(caller, callerBalance - amount), PutBalance(to, toBalance + amount)], Ok)
  }

  /** What is persisted is the greatest claim of the map, whichever claim was inserted. */
  ghost function CreateEffect(s: State, caller: AccountId32, claim: Content): Effect {
    if claim in s.claims then Effect(s, [], Err("this content is already claimed"))
    else
      var claims := s.claims[claim := caller];
      assert claim in claims.Keys;
      var last := Greatest(claims.Keys);
      Effect(s.(claims := claims), [PutClaim(last, claims[last])], Ok)
  }

  function RevokeEffect(s: State, caller: AccountId32, claim: Content): Effect {
    if claim !in s.claims then Effect(s, [], Err("claim does not exist"))
    else if s.claims[claim] != caller then Effect(s, [], Err("caller is not owner"))
    else Effect(s.(claims := s.claims - {claim}), [DeleteClaim(claim)], Ok)
  }

  ghost function Dispatch(s: State, caller: AccountId32, call: RuntimeCall): Effect {
    match call
    case Balances(Transfer(to, amount)) => TransferEffect(s, caller, to, amount)
    case ProofOfExistence(CreateClaim(claim)) => CreateEffect(s, caller, claim)
    case ProofOfExistence(RevokeClaim(claim)) => RevokeEffect(s, caller, claim)
  }

  // ---- blocks ------------------------------------------------------------------------------------

  /** How one extrinsic of a block fared. `Exhausted` is the `unwrap` on a nonce already at its maximum. */
  datatype Status = BadSignature(error: DispatchResult) | NonceMismatch | Applied(result: DispatchResult) | Exhausted
  datatype Receipt = Receipt(ext: Extrinsic, status: Status)

  datatype Completion = Returned(result: DispatchResult) | Panicked

  /** The state reached, the writes made on the way, one receipt for each extrinsic looked at, and how it ended. */
  datatype Exec = Exec(state: State, log: seq<Entry>, receipts: seq<Receipt>, end: Completion)

  ghost function Step(s: State, e: Extrinsic, signature: DispatchResult): Exec {
    if signature.Err? then
      Exec(s, [], [Receipt(e, BadSignature(signature))], Returned(Ok))
    else if NonceOf(s.nonces, e.signer) != e.nonce then
      Exec(s, [], [Receipt(e, NonceMismatch)], Returned(Ok))
    else if e.nonce == U32_MAX then
      Exec(s, [], [Receipt(e, Exhausted)], Panicked)
    else
      var bumped := s.(nonces := s.nonces[e.signer := e.nonce + 1]);
      var d := Dispatch(bumped, e.signer, e.call);
      Exec(d.state,
           [Entry(PutNonce(e.signer, e.nonce + 1), None)] + Tagged(d.writes, Some(CallId(e.signer, e.nonce))),
           [Receipt(e, Applied(d.result))], Returned(Ok))
  }

  /** `y` ran where `x` ended. */
  function Join(x: Exec, y: Exec): Exec {
    Exec(y.state, x.log + y.log, x.receipts + y.receipts, y.end)
  }

  /** Pass 2: the sequential loop over the extrinsics zipped with their signature results. */
  ghost function Loop(s: State, es: seq<Extrinsic>, signatures: seq<DispatchResult>): Exec
    requires |es| == |signatures|
  {
    if es == [] then Exec(s, [], [], Returned(Ok))
    else
      var n := |es| - 1;
      var x := Loop(s, es[..n], signatures[..n]);
      if x.end.Panicked? then x else Join(x, Step(x.state, es[n], signatures[n]))
  }

  ghost function ExecuteBlock(c: Crypto, s: State, b: Block): Exec {
    if s.height == U32_MAX then Exec(s, [], [], Panicked)
    else
      var t := s.(height := s.height + 1);
      var log := [Entry(PutHeight(t.height), None)];
      if b.header.blockNumber != t.height then
        Exec(t, log, [], Returned(Err("block number does not match what is expected")))
      else
        var x := Loop(t, b.extrinsics, VerifyBatch(c, b.extrinsics));
        x.(log := log + x.log)
  }

  /** A block that bears the right number is the loop after the height write. */
  lemma BlockIsLoop(c: Crypto, s: State, b: Block)
    requires s.height < U32_MAX && b.header.blockNumber == s.height + 1
    ensures var x := Loop(s.(height := s.height + 1), b.extrinsics, VerifyBatch(c, b.extrinsics));
            ExecuteBlock(c, s, b) == x.(log := [Entry(PutHeight(s.height + 1), None)] + x.log)
  {}

  /** Any other block: the height moves if it can, and nothing else. */
  lemma BlockIsRefused(c: Crypto, s: State, b: Block)
    requires s.height == U32_MAX || b.header.blockNumber != s.height + 1
    ensures var x := ExecuteBlock(c, s, b);
            && x.receipts == []
            && (s.height == U32_MAX ==> x.state == s && x.log == [] && x.end == Panicked)
            && (s.height < U32_MAX ==>
                  && x.state == s.(height := s.height + 1) && x.log == [Entry(PutHeight(s.height + 1), None)]
                  && x.end == Returned(Err("block number does not match what is expected")))
  {}

  /** Blocks executed one after the other by one process, which stops at a panic. */
  ghost function Run(c: Crypto, s: State, bs: seq<Block>): Exec {
    if bs == [] then Exec(s, [], [], Returned(Ok))
    else
      var x := Run(c, s, bs[..|bs| - 1]);
      if x.end.Panicked? then x else Join(x, ExecuteBlock(c, x.state, bs[|bs| - 1]))
  }

  // ---- start-up ----------------------------------------------------------------------------------

  /** The development accounts. */
  datatype Dev = Dev(alice: AccountId32, bob: AccountId32, charlie: AccountId32)

  const ENDOWMENT: U128 := 1_000_000

  /** The three writes that fund the development accounts, and what they make of the balances. */
  function Endowments(dev: Dev): seq<Write> {
    [PutBalance(dev.alice, ENDOWMENT), PutBalance(dev.bob, ENDOWMENT), PutBalance(dev.charlie, ENDOWMENT)]
  }

  function Endow(balances: map<AccountId32, U128>, dev: Dev): map<AccountId32, U128> {
    balances[dev.alice := ENDOWMENT][dev.bob := ENDOWMENT][dev.charlie := ENDOWMENT]
  }

  /** `maybe_apply_genesis`: fund the development accounts of a chain at height 0 and execute block 1. */
  ghost function Genesis(c: Crypto, dev: Dev, s: State): Exec {
    if s.height != 0 then Exec(s, [], [], Returned(Ok))
    else
      var x := ExecuteBlock(c, s.(balances := Endow(s.balances, dev)), Block(Header(1), []));
      Exec(x.state, Tagged(Endowments(dev), None) + x.log, x.receipts,
           if x.end == Returned(Ok) then x.end else Panicked)
  }

  /** One process: `Runtime::new` on the store it finds, genesis if due, then blocks. */
  ghost function Process(c: Crypto, dev: Dev, st: Store, bs: seq<Block>): Exec {
    var g := Genesis(c, dev, Load(st));
    if g.end.Panicked? then g else Join(g, Run(c, g.state, bs))
  }

  /** A process and the number of its store writes that a crash lets survive. */
  datatype Incarnation = Incarnation(blocks: seq<Block>, kept: nat)

  ghost function Durable(c: Crypto, dev: Dev, st: Store, i: Incarnation): seq<Entry> {
    Kept(Process(c, dev, st, i.blocks).log, i.kept)
  }

  /** What the store holds after a succession of processes, each crashing where its incarnation says. */
  ghost function Survives(c: Crypto, dev: Dev, st: Store, lives: seq<Incarnation>): Store {
    if lives == [] then st
    else
      var mid := Survives(c, dev, st, lives[..|lives| - 1]);
      After(mid, Durable(c, dev, mid, lives[|lives| - 1]))
  }

  // ---- reading the receipts ----------------------------------------------------------------------

  /** The extrinsics that passed both checks, in order, whatever their dispatch returned. */
  function Accepted(rs: seq<Receipt>): seq<Extrinsic> {
    if rs == [] then []
    else Accepted(rs[..|rs| - 1]) + (if rs[|rs| - 1].status.Applied? then [rs[|rs| - 1].ext] else [])
  }

  lemma {:induction false} AcceptedConcat(a: seq<Receipt>, b: seq<Receipt>)
    ensures Accepted(a + b) == Accepted(a) + Accepted(b)
  {
    if b == [] {
      assert a + b == a;
    } else {
      AcceptedConcat(a, b[..|b| - 1]);
      assert (a + b)[..|a + b| - 1] == a + b[..|b| - 1];
    }
  }

  /** The extrinsics of one signer, in order. */
  function BySigner(es: seq<Extrinsic>, a: AccountId32): seq<Extrinsic> {
    if es == [] then []
    else BySigner(es[..|es| - 1], a) + (if es[|es| - 1].signer == a then [es[|es| - 1]] else [])
  }

  lemma BySignerSnoc(xs: seq<Extrinsic>, x: Extrinsic, a: AccountId32)
    ensures BySigner(xs + [x], a) == if x.signer == a then BySigner(xs, a) + [x] else BySigner(xs, a)
  {
    assert (xs + [x])[..|xs|] == xs;
  }

  lemma {:induction false} BySignerConcat(x: seq<Extrinsic>, y: seq<Extrinsic>, a: AccountId32)
    ensures BySigner(x + y, a) == BySigner(x, a) + BySigner(y, a)
  {
    if y == [] {
      assert x + y == x;
    } else {
      BySignerConcat(x, y[..|y| - 1], a);
      assert (x + y)[..|x + y| - 1] == x + y[..|y| - 1];
    }
  }

  /** Nonces counting up by one from `n`. */
  predicate CountsFrom(xs: seq<Extrinsic>, n: int) {
    forall i :: 0 <= i < |xs| ==> xs[i].nonce == n + i
  }

  /** Per signer, nonces counting up from the one the runtime expects. */
  ghost predicate GapFree(es: seq<Extrinsic>, nonces: map<AccountId32, U32>) {
    forall a :: CountsFrom(BySigner(es, a), NonceOf(nonces, a))
  }

  lemma LoopSnoc(s: State, es: seq<Extrinsic>, rs: seq<DispatchResult>, e: Extrinsic, r: DispatchResult)
    requires |es| == |rs|
    ensures var x := Loop(s, es, rs);
            Loop(s, es + [e], rs + [r]) == if x.end.Panicked? then x else Join(x, Step(x.state, e, r))
  {
    assert (es + [e])[..|es|] == es;
    assert (rs + [r])[..|rs|] == rs;
  }
}
