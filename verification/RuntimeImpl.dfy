/** The runtime as an object: the generated `new`, `dispatch` and `execute_block`, and genesis, over the
    three pallets and one store (macros/src/runtime/expand.rs, src/lib.rs). */
module RuntimeImpl {
  import opened Types
  import opened Storage
  import opened StorageKeys
  import opened Pallets
  import R = RuntimeSpec
  import Durability
  import GenesisProofs
  import Supply

  class Runtime {
    const store: KvStore
    const system: SystemPallet
    const balances: BalancesPallet
    const poe: PoePallet

    ghost predicate Valid()
      reads store
    {
      store.Valid() && system.store == store && balances.store == store && poe.store == store
    }

    /** The in-memory state of the pallets. */
    ghost function View(): State
      reads system, balances, poe
    {
      State(system.blockNumber, system.nonces, balances.balances, poe.claims)
    }

    constructor New(store: KvStore)
      requires store.Valid()
      ensures Valid() && this.store == store && fresh(system) && fresh(balances) && fresh(poe)
      ensures LoadedState(store.data, View())
      ensures forall st :: Represents(store.data, st) ==> View() == Load(st)
    {
      var s := new SystemPallet.New(store);
      var b := new BalancesPallet.New(store);
      var p := new PoePallet.New(store);
      this.store := store;
      system := s;
      balances := b;
      poe := p;
      new;
      forall st | Represents(store.data, st)
        ensures View() == Load(st)
      {
        LoadsExactly(store.data, st, View());
      }
    }

    method Dispatch(caller: AccountId32, call: RuntimeCall) returns (r: DispatchResult)
      requires Valid()
      modifies balances, poe, store
      ensures Valid()
      ensures var d := R.Dispatch(old(View()), caller, call);
              && View() == d.state && r == d.result
              && store.log == old(store.log) + EncodeWrites(d.writes)
    {
      match call
      case Balances(Transfer(to, amount)) => r := balances.Transfer(caller, to, amount, View());
      case ProofOfExistence(CreateClaim(claim)) => r := poe.CreateClaim(caller, claim, View());
      case ProofOfExistence(RevokeClaim(claim)) => r := poe.RevokeClaim(caller, claim, View());
    }

    /** One turn of the loop of pass 2. */
    method ApplyExtrinsic(ext: Extrinsic, signature: DispatchResult) returns (end: R.Completion)
      requires Valid()
      modifies system, balances, poe, store
      ensures Valid()
      ensures var x := R.Step(old(View()), ext, signature);
              View() == x.state && end == x.end && store.log == old(store.log) + BytesOf(x.log)
    {
      StepBytes(View(), ext, signature);
      if signature.Err? { return R.Returned(Ok); }
      if system.Nonce(ext.signer) != ext.nonce { return R.Returned(Ok); }
      var ok := system.IncNonce(ext.signer);
      if !ok { return R.Panicked; }
      assert View() == Bumped(old(View()), ext);
      Assoc(old(store.log), [EncodeWrite(PutNonce(ext.signer, ext.nonce + 1))],
            EncodeWrites(R.Dispatch(View(), ext.signer, ext.call).writes));
      var _ := Dispatch(ext.signer, ext.call);
      end := R.Returned(Ok);
    }

    method ExecuteBlock(c: R.Crypto, block: Block) returns (end: R.Completion)
      requires Valid()
      modifies system, balances, poe, store
      ensures Valid()
      ensures var x := R.ExecuteBlock(c, old(View()), block);
              View() == x.state && end == x.end && store.log == old(store.log) + BytesOf(x.log)
    {
      ghost var s := View();
      var ok := system.IncBlockNumber();
      if !ok {
        return R.Panicked;
      }
      end := CheckAndApply(c, block, s, old(store.log));
    }

    /** What follows the increment: the number check, then the two passes. */
    method CheckAndApply(c: R.Crypto, block: Block, ghost s: State, ghost was: seq<ByteWrite>)
      returns (end: R.Completion)
      requires Valid() && s.height < U32_MAX && View() == Raised(s)
      requires store.log == was + [EncodeWrite(PutHeight(s.height + 1))]
      modifies system, balances, poe, store
      ensures Valid()
      ensures var x := R.ExecuteBlock(c, s, block);
              View() == x.state && end == x.end && store.log == was + BytesOf(x.log)
    {
      if block.header.blockNumber != system.blockNumber {
        return R.Returned(Err("block number does not match what is expected"));
      }
      BlockApplied(c, s, block);
      var rs := R.VerifyBatch(c, block.extrinsics);
      Assoc(was, [EncodeWrite(PutHeight(s.height + 1))], BytesOf(R.Loop(View(), block.extrinsics, rs).log));
      end := ApplyAll(block.extrinsics, rs);
    }

    /** Turn `i` of the loop, with what the turns before it have written. */
    method Turn(ghost t: State, es: seq<Extrinsic>, rs: seq<DispatchResult>, i: nat,
                ghost was: seq<ByteWrite>, ghost written: seq<ByteWrite>)
      returns (end: R.Completion, ghost more: seq<ByteWrite>)
      requires Valid() && |es| == |rs| && i < |es|
      requires Reached(t, es, rs, i, View(), written, R.Returned(Ok)) && store.log == was + written
      modifies system, balances, poe, store
      ensures Valid() && end in {R.Panicked, R.Returned(Ok)}
      ensures Reached(t, es, rs, i + 1, View(), more, end) && store.log == was + more
    {
      OneMore(t, es, rs, i, View(), written);
      ghost var bytes := BytesOf(R.Step(View(), es[i], rs[i]).log);
      more := written + bytes;
      Assoc(was, written, bytes);
      end := ApplyExtrinsic(es[i], rs[i]);
    }

    /** Pass 2. */
    method ApplyAll(es: seq<Extrinsic>, rs: seq<DispatchResult>) returns (end: R.Completion)
      requires Valid() && |es| == |rs|
      modifies system, balances, poe, store
      ensures Valid()
      ensures var x := R.Loop(old(View()), es, rs);
              View() == x.state && end == x.end && store.log == old(store.log) + BytesOf(x.log)
    {
      ghost var t := View();
      ghost var written := [];
      end := R.Returned(Ok);
      var i := 0;
      while i < |es|
        invariant 0 <= i <= |es| && Valid() && end == R.Returned(Ok)
        invariant Reached(t, es, rs, i, View(), written, end)
        invariant store.log == old(store.log) + written
      {
        end, written := Turn(t, es, rs, i, old(store.log), written);
        i := i + 1;
        if end.Panicked? {
          Stopped(t, es, rs, i, View(), written);
          return;
        }
      }
      Finished(t, es, rs, View(), written);
    }

    /** `maybe_apply_genesis`; the result is the `expect` on genesis. */
    method MaybeApplyGenesis(c: R.Crypto, dev: R.Dev) returns (end: R.Completion)
      requires Valid()
      modifies system, balances, poe, store
      ensures Valid()
      ensures var x := R.Genesis(c, dev, old(View()));
              View() == x.state && end == x.end && store.log == old(store.log) + BytesOf(x.log)
    {
      GenesisBytes(c, dev, View());
      if system.blockNumber != 0 { return R.Returned(Ok); }
      balances.SetBalance(dev.alice, R.ENDOWMENT);
      balances.SetBalance(dev.bob, R.ENDOWMENT);
      balances.SetBalance(dev.charlie, R.ENDOWMENT);
      assert View() == Funded(old(View()), dev);
      AppendedThree(old(store.log), dev);
      Assoc(old(store.log), EncodeWrites(R.Endowments(dev)),
            BytesOf(R.ExecuteBlock(c, View(), Block(Header(1), [])).log));
      end := ExecuteBlock(c, Block(Header(1), []));
      if end != R.Returned(Ok) { end := R.Panicked; }
    }
  }

  // ---- the logs of the specification, in bytes ---------------------------------------------------

  function Bumped(s: State, e: Extrinsic): State
    requires e.nonce < U32_MAX
  {
    s.(nonces := s.nonces[e.signer := e.nonce + 1])
  }

  lemma NoBytes()
    ensures BytesOf([]) == []
  {}

  lemma OneByte(w: Write)
    ensures BytesOf([Entry(w, None)]) == [EncodeWrite(w)]
  {
    assert Writes([Entry(w, None)]) == [w];
  }

  lemma StepBytes(s: State, e: Extrinsic, r: DispatchResult)
    ensures var x := R.Step(s, e, r);
            if r.Ok? && NonceOf(s.nonces, e.signer) == e.nonce < U32_MAX then
              var d := R.Dispatch(Bumped(s, e), e.signer, e.call);
              && x.state == d.state && x.end == R.Returned(Ok)
              && BytesOf(x.log) == [EncodeWrite(PutNonce(e.signer, e.nonce + 1))] + EncodeWrites(d.writes)
            else
              && x.state == s && BytesOf(x.log) == []
              && x.end == if r.Ok? && NonceOf(s.nonces, e.signer) == e.nonce then R.Panicked else R.Returned(Ok)
  {
    NoBytes();
    if r.Ok? && NonceOf(s.nonces, e.signer) == e.nonce < U32_MAX {
      var d := R.Dispatch(Bumped(s, e), e.signer, e.call);
      var put := PutNonce(e.signer, e.nonce + 1);
      OneByte(put);
      BytesConcat([Entry(put, None)], Tagged(d.writes, Some(CallId(e.signer, e.nonce))));
    }
  }

  function Raised(s: State): State
    requires s.height < U32_MAX
  {
    s.(height := s.height + 1)
  }

  lemma BlockApplied(c: R.Crypto, s: State, b: Block)
    requires s.height < U32_MAX && b.header.blockNumber == s.height + 1
    ensures var x := R.ExecuteBlock(c, s, b);
            var y := R.Loop(Raised(s), b.extrinsics, R.VerifyBatch(c, b.extrinsics));
            && x.state == y.state && x.end == y.end
            && BytesOf(x.log) == [EncodeWrite(PutHeight(s.height + 1))] + BytesOf(y.log)
  {
    OneByte(PutHeight(s.height + 1));
    BytesConcat([Entry(PutHeight(s.height + 1), None)],
                R.Loop(Raised(s), b.extrinsics, R.VerifyBatch(c, b.extrinsics)).log);
  }

  /** After the first `i` extrinsics the loop is in state `s`, has made these writes and ended so. */
  ghost predicate Reached(t: State, es: seq<Extrinsic>, rs: seq<DispatchResult>, i: nat,
                          s: State, written: seq<ByteWrite>, end: R.Completion)
    requires |es| == |rs| && i <= |es|
  {
    var x := R.Loop(t, es[..i], rs[..i]);
    x.state == s && BytesOf(x.log) == written && x.end == end
  }

  lemma OneMore(t: State, es: seq<Extrinsic>, rs: seq<DispatchResult>, i: nat, s: State, written: seq<ByteWrite>)
    requires |es| == |rs| && i < |es| && Reached(t, es, rs, i, s, written, R.Returned(Ok))
    ensures var y := R.Step(s, es[i], rs[i]);
            && Reached(t, es, rs, i + 1, y.state, written + BytesOf(y.log), y.end)
            && y.end in {R.Panicked, R.Returned(Ok)}
  {
    var x := R.Loop(t, es[..i], rs[..i]);
    assert es[..i + 1] == es[..i] + [es[i]] && rs[..i + 1] == rs[..i] + [rs[i]];
    R.LoopSnoc(t, es[..i], rs[..i], es[i], rs[i]);
    BytesConcat(x.log, R.Step(x.state, es[i], rs[i]).log);
  }

  lemma Finished(t: State, es: seq<Extrinsic>, rs: seq<DispatchResult>, s: State, written: seq<ByteWrite>)
    requires |es| == |rs| && Reached(t, es, rs, |es|, s, written, R.Returned(Ok))
    ensures var x := R.Loop(t, es, rs);
            x.state == s && BytesOf(x.log) == written && x.end == R.Returned(Ok)
  {
    assert es[..|es|] == es && rs[..|es|] == rs;
  }

  lemma {:induction false} PanicStays(t: State, es: seq<Extrinsic>, rs: seq<DispatchResult>,
                                      fs: seq<Extrinsic>, qs: seq<DispatchResult>)
    requires |es| == |rs| && |fs| == |qs| && R.Loop(t, es, rs).end.Panicked?
    ensures R.Loop(t, es + fs, rs + qs) == R.Loop(t, es, rs)
  {
    if fs == [] {
      Untailed(es);
      Untailed(rs);
    } else {
      var n := |fs| - 1;
      PanicStays(t, es, rs, fs[..n], qs[..n]);
      R.LoopSnoc(t, es + fs[..n], rs + qs[..n], fs[n], qs[n]);
      Rejoin(fs);
      Rejoin(qs);
      Assoc(es, fs[..n], [fs[n]]);
      Assoc(rs, qs[..n], [qs[n]]);
    }
  }

  lemma Stopped(t: State, es: seq<Extrinsic>, rs: seq<DispatchResult>, i: nat, s: State, written: seq<ByteWrite>)
    requires |es| == |rs| && i <= |es| && Reached(t, es, rs, i, s, written, R.Panicked)
    ensures var x := R.Loop(t, es, rs);
            x.state == s && BytesOf(x.log) == written && x.end == R.Panicked
  {
    assert es == es[..i] + es[i..] && rs == rs[..i] + rs[i..];
    PanicStays(t, es[..i], rs[..i], es[i..], rs[i..]);
  }

  function Funded(s: State, dev: R.Dev): State { s.(balances := R.Endow(s.balances, dev)) }

  lemma AppendedThree(was: seq<ByteWrite>, dev: R.Dev)
    ensures was + [EncodeWrite(PutBalance(dev.alice, R.ENDOWMENT))] + [EncodeWrite(PutBalance(dev.bob, R.ENDOWMENT))]
              + [EncodeWrite(PutBalance(dev.charlie, R.ENDOWMENT))] == was + EncodeWrites(R.Endowments(dev))
  {}

  lemma GenesisBytes(c: R.Crypto, dev: R.Dev, s: State)
    ensures var x := R.Genesis(c, dev, s);
            if s.height != 0 then x.state == s && x.end == R.Returned(Ok) && BytesOf(x.log) == []
            else
              var y := R.ExecuteBlock(c, Funded(s, dev), Block(Header(1), []));
              && x.state == y.state && x.end == (if y.end == R.Returned(Ok) then y.end else R.Panicked)
              && BytesOf(x.log) == EncodeWrites(R.Endowments(dev)) + BytesOf(y.log)
  {
    NoBytes();
    if s.height == 0 {
      var y := R.ExecuteBlock(c, Funded(s, dev), Block(Header(1), []));
      BytesConcat(Tagged(R.Endowments(dev), None), y.log);
    }
  }

  /** The bytes on disk after the blocks of a runtime represent the store that the specification reaches;
      so a restart on them loads height, nonces and balances exactly and a submap of the claims. */
  lemma BytesFollowSpec(c: R.Crypto, m: ByteMap, st: Store, bs: seq<Block>, reloaded: State)
    requires Represents(m, st)
    requires LoadedState(ReplayBytes(m, BytesOf(R.Run(c, Load(st), bs).log)), reloaded)
    ensures reloaded == Load(After(st, R.Run(c, Load(st), bs).log))
    ensures Durability.SameLedger(reloaded, R.Run(c, Load(st), bs).state)
    ensures Durability.SubMap(reloaded.claims, R.Run(c, Load(st), bs).state.claims)
  {
    var x := R.Run(c, Load(st), bs);
    ReplayRepresents(m, st, Writes(x.log));
    LoadsExactly(ReplayBytes(m, BytesOf(x.log)), After(st, x.log), reloaded);
    Durability.RunSynced(c, st, Load(st), bs);
  }

  /** The byte writes that reach the disk over a succession of crashing processes. */
  ghost function SurvivingBytes(c: R.Crypto, dev: R.Dev, st: Store, lives: seq<R.Incarnation>): seq<ByteWrite> {
    if lives == [] then []
    else
      var n := |lives| - 1;
      SurvivingBytes(c, dev, st, lives[..n]) + BytesOf(R.Durable(c, dev, R.Survives(c, dev, st, lives[..n]), lives[n]))
  }

  /** However often and wherever processes crash, the bytes left represent the store that the specification
      computes, and `Runtime::new` on them brings back exactly its contents. */
  lemma {:induction false} CrashesOnBytes(c: R.Crypto, dev: R.Dev, m: ByteMap, st: Store, lives: seq<R.Incarnation>)
    requires Represents(m, st)
    ensures var left := ReplayBytes(m, SurvivingBytes(c, dev, st, lives));
            && Represents(left, R.Survives(c, dev, st, lives))
            && forall s :: LoadedState(left, s) ==> s == Load(R.Survives(c, dev, st, lives))
  {
    var left := ReplayBytes(m, SurvivingBytes(c, dev, st, lives));
    if lives != [] {
      var n := |lives| - 1;
      CrashesOnBytes(c, dev, m, st, lives[..n]);
      var mid := R.Survives(c, dev, st, lives[..n]);
      var before := SurvivingBytes(c, dev, st, lives[..n]);
      var log := R.Durable(c, dev, mid, lives[n]);
      ReplayRepresents(ReplayBytes(m, before), mid, Writes(log));
      ReplayBytesConcat(m, before, BytesOf(log));
    }
    forall s | LoadedState(left, s)
      ensures s == Load(R.Survives(c, dev, st, lives))
    {
      LoadsExactly(left, R.Survives(c, dev, st, lives), s);
    }
  }

  /** A node that begins on an empty database and crashes as often and wherever it likes, genesis included,
      always restarts on exactly what the specification says survived, and, without self-transfers, never on
      more than the three endowments. */
  lemma CrashesFromNothing(c: R.Crypto, dev: R.Dev, lives: seq<R.Incarnation>)
    ensures var left := ReplayBytes(map[], SurvivingBytes(c, dev, EMPTY, lives));
            forall s :: LoadedState(left, s) ==>
              && s == Load(R.Survives(c, dev, EMPTY, lives))
              && (Supply.NoSelfTransfersIn(lives) ==> Supply.Total(s.balances) <= 3 * R.ENDOWMENT)
  {
    CrashesOnBytes(c, dev, map[], EMPTY, lives);
    if Supply.NoSelfTransfersIn(lives) { GenesisProofs.SupplyFromNothing(c, dev, lives); }
  }
}
