/** Token supply: exact accounting over blocks, the overflow branch, and what crashes between two store
    writes can do to the persisted total (src/balances.rs, macros/src/runtime/expand.rs). */
module Supply {
  import opened Types
  import opened Storage
  import opened RuntimeSpec
  import opened Durability

  // ---- totals ------------------------------------------------------------------------------------

  ghost function Total(m: map<AccountId32, U128>): nat {
    if m == map[] then 0 else var a :| a in m; m[a] + Total(m - {a})
  }

  lemma {:induction false} TotalSplit(m: map<AccountId32, U128>, a: AccountId32)
    requires a in m
    ensures Total(m) == m[a] + Total(m - {a})
    decreases m
  {
    var b :| b in m && Total(m) == m[b] + Total(m - {b});
    if a != b {
      TotalSplit(m - {b}, a);
      TotalSplit(m - {a}, b);
      assert m - {b} - {a} == m - {a} - {b};
    }
  }

  lemma TotalUpdate(m: map<AccountId32, U128>, a: AccountId32, v: U128)
    ensures Total(m[a := v]) == Total(m) - BalanceOf(m, a) + v
  {
    TotalSplit(m[a := v], a);
    assert m[a := v] - {a} == m - {a};
    if a in m { TotalSplit(m, a); } else { assert m - {a} == m; }
  }

  lemma TotalHasTwo(m: map<AccountId32, U128>, a: AccountId32, b: AccountId32)
    requires a != b
    ensures BalanceOf(m, a) + BalanceOf(m, b) <= Total(m)
  {
    TotalUpdate(m, a, 0);
    TotalUpdate(m[a := 0], b, 0);
  }

  // ---- exact accounting --------------------------------------------------------------------------

  /** When a transfer succeeds and what it moves, account by account; to oneself it is not a move. */
  lemma TransferExactly(s: State, caller: AccountId32, to: AccountId32, amount: U128)
    ensures var d := TransferEffect(s, caller, to, amount);
            var had, t := BalanceOf(s.balances, caller), BalanceOf(s.balances, to);
            && (d.result == Ok <==> amount <= had && t + amount <= U128_MAX)
            && (d.result.Err? ==> d.state == s && d.writes == [])
            && (d.result == Ok ==>
                  && BalanceOf(d.state.balances, to) == t + amount
                  && (caller != to ==> BalanceOf(d.state.balances, caller) == had - amount)
                  && (forall a :: a != caller && a != to ==> BalanceOf(d.state.balances, a) == BalanceOf(s.balances, a))
                  && Total(d.state.balances) == Total(s.balances) + if caller == to then amount else 0)
            && (Total(d.state.balances) == Total(s.balances) <==>
                !(caller == to && 0 < amount <= had && had + amount <= U128_MAX))
  {
    if TransferEffect(s, caller, to, amount).result == Ok { MoveTotal(s.balances, caller, to, amount); }
  }

  /** Which of the two refusals a transfer meets; lack of funds is found first. */
  lemma TransferRefused(s: State, caller: AccountId32, to: AccountId32, amount: U128)
    ensures var r := TransferEffect(s, caller, to, amount).result;
            var had, t := BalanceOf(s.balances, caller), BalanceOf(s.balances, to);
            && (r == Err("Not enough funds.") <==> had < amount)
            && (r == Err("Overflow") <==> amount <= had && t + amount > U128_MAX)
            && (r != Ok ==> TransferEffect(s, caller, to, amount) == Effect(s, [], r))
  {
    assert |"Not enough funds."| > |"Overflow"|;
  }

  /** Debit, then credit with what was read before the debit. */
  lemma MoveTotal(m: map<AccountId32, U128>, caller: AccountId32, to: AccountId32, amount: U128)
    requires amount <= BalanceOf(m, caller) && BalanceOf(m, to) + amount <= U128_MAX
    ensures Total(m[caller := BalanceOf(m, caller) - amount]) == Total(m) - amount
    ensures Total(m[caller := BalanceOf(m, caller) - amount][to := BalanceOf(m, to) + amount]) ==
            Total(m) + if caller == to then amount else 0
  {
    TotalUpdate(m, caller, BalanceOf(m, caller) - amount);
    TotalUpdate(m[caller := BalanceOf(m, caller) - amount], to, BalanceOf(m, to) + amount);
  }

  /** What one extrinsic adds to the supply: the amount of a successful transfer to oneself. */
  function MintOf(r: Receipt): nat {
    if r.status == Applied(Ok) && SelfTransfer(r.ext) then r.ext.call.balances.amount else 0
  }

  predicate SelfTransfer(e: Extrinsic) { e.call.Balances? && e.call.balances.to == e.signer }

  function Minted(rs: seq<Receipt>): nat {
    if rs == [] then 0 else Minted(rs[..|rs| - 1]) + MintOf(rs[|rs| - 1])
  }

  lemma {:induction false} MintedConcat(a: seq<Receipt>, b: seq<Receipt>)
    ensures Minted(a + b) == Minted(a) + Minted(b)
  {
    if b == [] {
      assert a + b == a;
    } else {
      MintedConcat(a, b[..|b| - 1]);
      assert (a + b)[..|a + b| - 1] == a + b[..|b| - 1];
    }
  }

  lemma DispatchSupply(s: State, caller: AccountId32, call: RuntimeCall)
    ensures var d := Dispatch(s, caller, call);
            Total(d.state.balances) == Total(s.balances)
              + if d.result.Ok? && call.Balances? && call.balances.to == caller then call.balances.amount else 0
  {
    if call.Balances? { TransferExactly(s, caller, call.balances.to, call.balances.amount); }
  }

  lemma StepSupply(s: State, e: Extrinsic, r: DispatchResult)
    ensures Total(Step(s, e, r).state.balances) == Total(s.balances) + Minted(Step(s, e, r).receipts)
  {
    var x := Step(s, e, r);
    StepLog(s, e, r);
    if x.log != [] {
      DispatchSupply(s.(nonces := s.nonces[e.signer := e.nonce + 1]), e.signer, e.call);
    } else {
      assert x.receipts == [Receipt(e, x.receipts[0].status)] && !x.receipts[0].status.Applied?;
    }
  }

  lemma {:induction false} LoopSupply(s: State, es: seq<Extrinsic>, rs: seq<DispatchResult>)
    requires |es| == |rs|
    ensures Total(Loop(s, es, rs).state.balances) == Total(s.balances) + Minted(Loop(s, es, rs).receipts)
  {
    if es != [] {
      var n := |es| - 1;
      LoopSupply(s, es[..n], rs[..n]);
      var x := Loop(s, es[..n], rs[..n]);
      if x.end.Returned? {
        StepSupply(x.state, es[n], rs[n]);
        MintedConcat(x.receipts, Step(x.state, es[n], rs[n]).receipts);
      }
    }
  }

  lemma BlockSupply(c: Crypto, s: State, b: Block)
    ensures Total(ExecuteBlock(c, s, b).state.balances) == Total(s.balances) + Minted(ExecuteBlock(c, s, b).receipts)
  {
    if s.height < U32_MAX && b.header.blockNumber == s.height + 1 {
      LoopSupply(s.(height := s.height + 1), b.extrinsics, VerifyBatch(c, b.extrinsics));
      BlockIsLoop(c, s, b);
    } else {
      BlockIsRefused(c, s, b);
    }
  }

  /** Over any sequence of blocks the supply changes by exactly the sum of the successful self-transfers;
      so it is conserved if and only if they sum to nothing. */
  lemma {:induction false} SupplyExactly(c: Crypto, s: State, bs: seq<Block>)
    ensures var x := Run(c, s, bs);
            && Total(x.state.balances) == Total(s.balances) + Minted(x.receipts)
            && (Total(x.state.balances) == Total(s.balances) <==> Minted(x.receipts) == 0)
  {
    if bs != [] {
      var n := |bs| - 1;
      SupplyExactly(c, s, bs[..n]);
      var x := Run(c, s, bs[..n]);
      if x.end.Returned? {
        BlockSupply(c, x.state, bs[n]);
        MintedConcat(x.receipts, ExecuteBlock(c, x.state, bs[n]).receipts);
      }
    }
  }

  /** Tokens from nothing: an account holding 1 sends 1 to itself and holds 2. */
  lemma SelfTransferMints(a: AccountId32)
    ensures var s := State(1, map[], map[a := 1], map[]);
            var d := TransferEffect(s, a, a, 1);
            d.result == Ok && Total(s.balances) == 1 && Total(d.state.balances) == 2
  {
    var s := State(1, map[], map[a := 1], map[]);
    TransferExactly(s, a, a, 1);
    TotalUpdate(map[], a, 1);
    assert map[][a := 1] == s.balances;
  }

  // ---- the overflow branch -----------------------------------------------------------------------

  ghost predicate NoSelfTransfers(bs: seq<Block>) {
    forall i, j :: 0 <= i < |bs| && 0 <= j < |bs[i].extrinsics| ==> !SelfTransfer(bs[i].extrinsics[j])
  }

  ghost predicate NoneToSelf(es: seq<Extrinsic>) {
    forall j :: 0 <= j < |es| ==> !SelfTransfer(es[j])
  }

  ghost predicate NeverOverflows(rs: seq<Receipt>) {
    forall i :: 0 <= i < |rs| ==> rs[i].status != Applied(Err("Overflow")) && MintOf(rs[i]) == 0
  }

  lemma {:induction false} NothingMinted(rs: seq<Receipt>)
    requires NeverOverflows(rs)
    ensures Minted(rs) == 0
  {
    if rs != [] { NothingMinted(rs[..|rs| - 1]); }
  }

  lemma DispatchNeverOverflows(s: State, caller: AccountId32, call: RuntimeCall)
    requires Total(s.balances) <= U128_MAX && !(call.Balances? && call.balances.to == caller)
    ensures Dispatch(s, caller, call).result != Err("Overflow")
  {
    if call.Balances? {
      TotalHasTwo(s.balances, caller, call.balances.to);
    } else {
      assert |"Overflow"| < |"caller is not owner"| < |"claim does not exist"| < |"this content is already claimed"|;
    }
  }

  lemma StepNeverOverflows(s: State, e: Extrinsic, r: DispatchResult)
    requires Total(s.balances) <= U128_MAX && !SelfTransfer(e)
    ensures NeverOverflows(Step(s, e, r).receipts)
  {
    var x := Step(s, e, r);
    StepLog(s, e, r);
    if x.log != [] {
      DispatchNeverOverflows(s.(nonces := s.nonces[e.signer := e.nonce + 1]), e.signer, e.call);
    } else {
      assert x.receipts == [Receipt(e, x.receipts[0].status)] && !x.receipts[0].status.Applied?;
    }
  }

  lemma {:induction false} LoopNeverOverflows(s: State, es: seq<Extrinsic>, rs: seq<DispatchResult>)
    requires |es| == |rs| && Total(s.balances) <= U128_MAX && NoneToSelf(es)
    ensures NeverOverflows(Loop(s, es, rs).receipts)
  {
    if es != [] {
      var n := |es| - 1;
      LoopNeverOverflows(s, es[..n], rs[..n]);
      var x := Loop(s, es[..n], rs[..n]);
      LoopSupply(s, es[..n], rs[..n]);
      NothingMinted(x.receipts);
      if x.end.Returned? { StepNeverOverflows(x.state, es[n], rs[n]); }
    }
  }

  lemma BlockNeverOverflows(c: Crypto, s: State, b: Block)
    requires Total(s.balances) <= U128_MAX && NoneToSelf(b.extrinsics)
    ensures NeverOverflows(ExecuteBlock(c, s, b).receipts)
  {
    if s.height < U32_MAX && b.header.blockNumber == s.height + 1 {
      LoopNeverOverflows(s.(height := s.height + 1), b.extrinsics, VerifyBatch(c, b.extrinsics));
    }
  }

  /** With no self-transfer in sight and a supply that fits, no transfer of any run fails for overflow, and
      the supply stays what it was. */
  lemma {:induction false} OverflowUnreachable(c: Crypto, s: State, bs: seq<Block>)
    requires Total(s.balances) <= U128_MAX && NoSelfTransfers(bs)
    ensures var x := Run(c, s, bs);
            NeverOverflows(x.receipts) && Total(x.state.balances) == Total(s.balances)
  {
    SupplyExactly(c, s, bs);
    if bs != [] {
      var n := |bs| - 1;
      OverflowUnreachable(c, s, bs[..n]);
      var x := Run(c, s, bs[..n]);
      if x.end.Returned? {
        assert NoneToSelf(bs[n].extrinsics);
        BlockNeverOverflows(c, x.state, bs[n]);
      }
    }
    NothingMinted(Run(c, s, bs).receipts);
  }

  // ---- runs without self-transfers ---------------------------------------------------------------

  /** One receipt for each extrinsic looked at, in order; all are looked at unless one panics. */
  lemma {:induction false} LoopReceipts(s: State, es: seq<Extrinsic>, rs: seq<DispatchResult>)
    requires |es| == |rs|
    ensures var x := Loop(s, es, rs);
            && |x.receipts| <= |es| && (x.end.Returned? ==> |x.receipts| == |es|)
            && forall i :: 0 <= i < |x.receipts| ==> x.receipts[i].ext == es[i]
  {
    if es != [] { LoopReceipts(s, es[..|es| - 1], rs[..|es| - 1]); }
  }

  ghost predicate NoneSelf(rs: seq<Receipt>) { forall i :: 0 <= i < |rs| ==> !SelfTransfer(rs[i].ext) }

  lemma {:induction false} MintsNothing(rs: seq<Receipt>)
    requires NoneSelf(rs)
    ensures Minted(rs) == 0
  {
    if rs != [] { MintsNothing(rs[..|rs| - 1]); }
  }

  lemma BlockNoneSelf(c: Crypto, s: State, b: Block)
    requires NoneToSelf(b.extrinsics)
    ensures NoneSelf(ExecuteBlock(c, s, b).receipts)
  {
    if s.height < U32_MAX && b.header.blockNumber == s.height + 1 {
      LoopReceipts(s.(height := s.height + 1), b.extrinsics, VerifyBatch(c, b.extrinsics));
      BlockIsLoop(c, s, b);
    } else {
      BlockIsRefused(c, s, b);
    }
  }

  lemma {:induction false} RunMintsNothing(c: Crypto, s: State, bs: seq<Block>)
    requires NoSelfTransfers(bs)
    ensures NoneSelf(Run(c, s, bs).receipts) && Minted(Run(c, s, bs).receipts) == 0
  {
    if bs != [] {
      var n := |bs| - 1;
      RunMintsNothing(c, s, bs[..n]);
      var x := Run(c, s, bs[..n]);
      if x.end.Returned? {
        assert NoneToSelf(bs[n].extrinsics);
        BlockNoneSelf(c, x.state, bs[n]);
      }
    }
    MintsNothing(Run(c, s, bs).receipts);
  }

  ghost predicate NoSelfTransfersIn(lives: seq<Incarnation>) {
    forall i :: 0 <= i < |lives| ==> NoSelfTransfers(lives[i].blocks)
  }

  /** At a block boundary of a process that has not crashed the store holds the starting total and what
      self-transfers added, no more and no less. */
  lemma BoundaryExact(c: Crypto, st: Store, bs: seq<Block>)
    ensures var x := Run(c, Load(st), bs);
            Total(After(st, x.log).balances) == Total(st.balances) + Minted(x.receipts)
  {
    SupplyExactly(c, Load(st), bs);
    RunSynced(c, st, Load(st), bs);
  }
}
