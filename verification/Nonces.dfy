/** Replay protection over whole runs, which blocks are accepted in full, and the two passes of
    `execute_block` against one (macros/src/runtime/expand.rs, src/support.rs). */
module Nonces {
  import opened Types
  import opened Storage
  import opened RuntimeSpec

  /** `accepted` carries, signer by signer, the nonces from `before` on, and `after` is what follows them. */
  ghost predicate Follows(before: map<AccountId32, U32>, accepted: seq<Extrinsic>, after: map<AccountId32, U32>) {
    && GapFree(accepted, before)
    && forall a :: NonceOf(after, a) == NonceOf(before, a) + |BySigner(accepted, a)|
  }

  lemma FollowsConcat(m: map<AccountId32, U32>, x: seq<Extrinsic>, n: map<AccountId32, U32>,
                      y: seq<Extrinsic>, o: map<AccountId32, U32>)
    requires Follows(m, x, n) && Follows(n, y, o)
    ensures Follows(m, x + y, o)
  {
    forall a
      ensures CountsFrom(BySigner(x + y, a), NonceOf(m, a))
      ensures NonceOf(o, a) == NonceOf(m, a) + |BySigner(x + y, a)|
    {
      BySignerConcat(x, y, a);
    }
  }

  lemma DispatchKeeps(s: State, caller: AccountId32, call: RuntimeCall)
    ensures Dispatch(s, caller, call).state.nonces == s.nonces
    ensures Dispatch(s, caller, call).state.height == s.height
  {}

  /** The two checks, and the nonce that moves before the call runs. */
  ghost predicate Passes(s: State, e: Extrinsic, r: DispatchResult) {
    r.Ok? && NonceOf(s.nonces, e.signer) == e.nonce && e.nonce < U32_MAX
  }

  lemma StepPasses(s: State, e: Extrinsic, r: DispatchResult)
    requires Passes(s, e, r)
    ensures var x := Step(s, e, r);
            && x.state.height == s.height && x.state.nonces == s.nonces[e.signer := e.nonce + 1]
            && x.receipts == [x.receipts[0]] && x.receipts[0].ext == e && x.receipts[0].status.Applied?
            && x.end == Returned(Ok)
  {
    DispatchKeeps(s.(nonces := s.nonces[e.signer := e.nonce + 1]), e.signer, e.call);
  }

  lemma StepAccepts(s: State, e: Extrinsic, r: DispatchResult)
    ensures var x := Step(s, e, r);
            && x.state.height == s.height
            && x.state.nonces == (if Passes(s, e, r) then s.nonces[e.signer := e.nonce + 1] else s.nonces)
            && Accepted(x.receipts) == (if Passes(s, e, r) then [e] else [])
            && (Passes(s, e, r) ==> x.end == Returned(Ok))
  {
    if Passes(s, e, r) { StepPasses(s, e, r); }
  }

  lemma OneFollows(m: map<AccountId32, U32>, e: Extrinsic)
    requires NonceOf(m, e.signer) == e.nonce < U32_MAX
    ensures Follows(m, [e], m[e.signer := e.nonce + 1])
  {
    forall a
      ensures CountsFrom(BySigner([e], a), NonceOf(m, a))
      ensures NonceOf(m[e.signer := e.nonce + 1], a) == NonceOf(m, a) + |BySigner([e], a)|
    {
      assert [e][..0] == [];
    }
  }

  lemma StepNonces(s: State, e: Extrinsic, r: DispatchResult)
    ensures var x := Step(s, e, r);
            Follows(s.nonces, Accepted(x.receipts), x.state.nonces) && x.state.height == s.height
  {
    StepAccepts(s, e, r);
    if Passes(s, e, r) { OneFollows(s.nonces, e); }
  }

  lemma {:induction false} LoopNonces(s: State, es: seq<Extrinsic>, rs: seq<DispatchResult>)
    requires |es| == |rs|
    ensures var x := Loop(s, es, rs);
            Follows(s.nonces, Accepted(x.receipts), x.state.nonces) && x.state.height == s.height
  {
    if es != [] {
      var n := |es| - 1;
      LoopNonces(s, es[..n], rs[..n]);
      var x := Loop(s, es[..n], rs[..n]);
      if x.end.Returned? {
        var y := Step(x.state, es[n], rs[n]);
        StepNonces(x.state, es[n], rs[n]);
        AcceptedConcat(x.receipts, y.receipts);
        FollowsConcat(s.nonces, Accepted(x.receipts), x.state.nonces, Accepted(y.receipts), y.state.nonces);
      }
    }
  }

  lemma BlockNonces(c: Crypto, s: State, b: Block)
    ensures var x := ExecuteBlock(c, s, b);
            && Follows(s.nonces, Accepted(x.receipts), x.state.nonces)
            && (x.end.Returned? ==> x.state.height == s.height + 1)
  {
    if s.height == U32_MAX || b.header.blockNumber != s.height + 1 {
    } else {
      LoopNonces(s.(height := s.height + 1), b.extrinsics, VerifyBatch(c, b.extrinsics));
      BlockIsLoop(c, s, b);
    }
  }

  /** Over any sequence of blocks each signer's accepted extrinsics carry n0, n0 + 1, … in order, the final
      nonce is n0 plus their number whether or not their calls failed, and every call of `execute_block`
      that returns, rejections included, adds one to the height. */
  lemma {:induction false} NoncesExact(c: Crypto, s: State, bs: seq<Block>)
    ensures var x := Run(c, s, bs);
            && Follows(s.nonces, Accepted(x.receipts), x.state.nonces)
            && (x.end.Returned? ==> x.state.height == s.height + |bs|)
  {
    if bs != [] {
      var n := |bs| - 1;
      NoncesExact(c, s, bs[..n]);
      var x := Run(c, s, bs[..n]);
      if x.end.Returned? {
        var y := ExecuteBlock(c, x.state, bs[n]);
        BlockNonces(c, x.state, bs[n]);
        AcceptedConcat(x.receipts, y.receipts);
        FollowsConcat(s.nonces, Accepted(x.receipts), x.state.nonces, Accepted(y.receipts), y.state.nonces);
      }
    }
  }

  /** No (signer, nonce) is accepted twice in a run. */
  lemma NeverAcceptedTwice(c: Crypto, s: State, bs: seq<Block>, i: nat, j: nat)
    requires i < j < |Accepted(Run(c, s, bs).receipts)|
    ensures var acc := Accepted(Run(c, s, bs).receipts);
            !(acc[i].signer == acc[j].signer && acc[i].nonce == acc[j].nonce)
  {
    NoncesExact(c, s, bs);
    var acc := Accepted(Run(c, s, bs).receipts);
    var a := acc[j].signer;
    if acc[i].signer == a {
      NthOfSigner(acc, i);
      NthOfSigner(acc, j);
      PrefixCounts(acc, i, j);
      assert CountsFrom(BySigner(acc, a), NonceOf(s.nonces, a));
    }
  }

  lemma {:induction false} NthOfSigner(es: seq<Extrinsic>, i: nat)
    requires i < |es|
    ensures var k := |BySigner(es[..i], es[i].signer)|;
            k < |BySigner(es, es[i].signer)| && BySigner(es, es[i].signer)[k] == es[i]
  {
    var a := es[i].signer;
    var n := |es| - 1;
    if i < n {
      NthOfSigner(es[..n], i);
      assert es[..n][..i] == es[..i];
    }
  }

  lemma PrefixCounts(es: seq<Extrinsic>, i: nat, j: nat)
    requires i < j <= |es|
    ensures |BySigner(es[..i], es[i].signer)| < |BySigner(es[..j], es[i].signer)|
  {
    NthOfSigner(es[..j], i);
    assert es[..j][..i] == es[..i];
  }

  /** A block is rejected exactly when its number is not the next height; then only the height moves. */
  lemma RejectedExactly(c: Crypto, s: State, b: Block)
    ensures var x := ExecuteBlock(c, s, b);
            && ((x.end.Returned? && x.end.result.Err?) <==> s.height < U32_MAX && b.header.blockNumber != s.height + 1)
            && (x.end.Returned? && x.end.result.Err? ==>
                  x.state == s.(height := s.height + 1) && x.log == [Entry(PutHeight(s.height + 1), None)])
  {
    if s.height < U32_MAX && b.header.blockNumber == s.height + 1 {
      var t := s.(height := s.height + 1);
      LoopEnds(t, b.extrinsics, VerifyBatch(c, b.extrinsics));
      BlockIsLoop(c, s, b);
    } else {
      BlockIsRefused(c, s, b);
    }
  }

  lemma {:induction false} LoopEnds(s: State, es: seq<Extrinsic>, rs: seq<DispatchResult>)
    requires |es| == |rs|
    ensures Loop(s, es, rs).end in {Panicked, Returned(Ok)}
    ensures |Loop(s, es, rs).receipts| <= |es|
  {
    if es != [] { LoopEnds(s, es[..|es| - 1], rs[..|es| - 1]); }
  }

  // ---- blocks accepted in full -------------------------------------------------------------------

  /** Every extrinsic validly signed, and none at the nonce that `inc_nonce` cannot pass. */
  ghost predicate Runnable(es: seq<Extrinsic>, rs: seq<DispatchResult>)
    requires |es| == |rs|
  {
    forall i :: 0 <= i < |es| ==> rs[i].Ok? && es[i].nonce < U32_MAX
  }

  lemma {:induction false} AcceptedBound(rs: seq<Receipt>)
    ensures |Accepted(rs)| <= |rs|
  {
    if rs != [] { AcceptedBound(rs[..|rs| - 1]); }
  }

  lemma CountsSnoc(x: seq<Extrinsic>, e: Extrinsic, n: int)
    ensures CountsFrom(x + [e], n) <==> CountsFrom(x, n) && e.nonce == n + |x|
  {
    var all := x + [e];
    assert all[|x|] == e && forall i :: 0 <= i < |x| ==> all[i] == x[i];
  }

  /** One more extrinsic matters to its own signer's count and to no other. */
  lemma SnocCounts(es: seq<Extrinsic>, e: Extrinsic, a: AccountId32, n: int)
    ensures CountsFrom(BySigner(es + [e], a), n) <==>
            CountsFrom(BySigner(es, a), n) && (e.signer == a ==> e.nonce == n + |BySigner(es, a)|)
  {
    BySignerSnoc(es, e, a);
    CountsSnoc(BySigner(es, a), e, n);
  }

  lemma GapFreeSnoc(es: seq<Extrinsic>, e: Extrinsic, m: map<AccountId32, U32>)
    ensures GapFree(es + [e], m) <==>
            GapFree(es, m) && e.nonce == NonceOf(m, e.signer) + |BySigner(es, e.signer)|
  {
    forall a
      ensures CountsFrom(BySigner(es + [e], a), NonceOf(m, a)) <==>
              && CountsFrom(BySigner(es, a), NonceOf(m, a))
              && (e.signer == a ==> e.nonce == NonceOf(m, a) + |BySigner(es, a)|)
    {
      SnocCounts(es, e, a, NonceOf(m, a));
    }
  }

  ghost predicate AllIfGapFree(s: State, es: seq<Extrinsic>, rs: seq<DispatchResult>)
    requires |es| == |rs|
  {
    var x := Loop(s, es, rs);
    && (Accepted(x.receipts) == es <==> Runnable(es, rs) && GapFree(es, s.nonces))
    && (Accepted(x.receipts) == es ==> x.end == Returned(Ok))
  }

  lemma OneMoreAccepted(s: State, es: seq<Extrinsic>, rs: seq<DispatchResult>, e: Extrinsic, r: DispatchResult)
    requires |es| == |rs| && AllIfGapFree(s, es, rs)
    ensures AllIfGapFree(s, es + [e], rs + [r])
  {
    var x := Loop(s, es, rs);
    LoopNonces(s, es, rs);
    GapFreeSnoc(es, e, s.nonces);
    RunnableSnoc(es, rs, e, r);
    LastAccepted(s, es, rs, e, r, x);
    if Accepted(x.receipts) == es {
      assert NonceOf(x.state.nonces, e.signer) == NonceOf(s.nonces, e.signer) + |BySigner(es, e.signer)|;
    }
  }

  lemma {:induction false} AllAreIfGapFree(s: State, es: seq<Extrinsic>, rs: seq<DispatchResult>)
    requires |es| == |rs|
    ensures AllIfGapFree(s, es, rs)
  {
    if es == [] {
    } else {
      var n := |es| - 1;
      AllAreIfGapFree(s, es[..n], rs[..n]);
      OneMoreAccepted(s, es[..n], rs[..n], es[n], rs[n]);
      Rejoin(es);
      Rejoin(rs);
    }
  }

  /** The loop accepts everything it is given exactly when all signatures are valid and every signer's
      nonces count up from its own, in whatever way the signers are interleaved. */
  lemma LoopAcceptsAll(s: State, es: seq<Extrinsic>, rs: seq<DispatchResult>)
    requires |es| == |rs|
    ensures var x := Loop(s, es, rs);
            && (Accepted(x.receipts) == es <==> Runnable(es, rs) && GapFree(es, s.nonces))
            && (Accepted(x.receipts) == es ==> x.end == Returned(Ok))
  {
    AllAreIfGapFree(s, es, rs);
  }

  lemma RunnableSnoc(es: seq<Extrinsic>, rs: seq<DispatchResult>, e: Extrinsic, r: DispatchResult)
    requires |es| == |rs|
    ensures Runnable(es + [e], rs + [r]) <==> Runnable(es, rs) && r.Ok? && e.nonce < U32_MAX
  {
    if Runnable(es + [e], rs + [r]) {
      assert (rs + [r])[|rs|].Ok?;
      forall i | 0 <= i < |es|
        ensures rs[i].Ok? && es[i].nonce < U32_MAX
      {
        assert (rs + [r])[i] == rs[i] && (es + [e])[i] == es[i];
      }
    }
  }

  lemma LastAccepted(s: State, es: seq<Extrinsic>, rs: seq<DispatchResult>, e: Extrinsic, r: DispatchResult, x: Exec)
    requires |es| == |rs| && x == Loop(s, es, rs)
    ensures var y := Loop(s, es + [e], rs + [r]);
            && (Accepted(y.receipts) == es + [e] <==>
                  Accepted(x.receipts) == es && x.end.Returned? && Passes(x.state, e, r))
            && (Accepted(y.receipts) == es + [e] ==> y.end == Returned(Ok))
  {
    LoopSnoc(s, es, rs, e, r);
    LoopEnds(s, es, rs);
    AcceptedBound(x.receipts);
    StepAccepts(x.state, e, r);
    AcceptedConcat(x.receipts, Step(x.state, e, r).receipts);
  }

  lemma BlockAcceptsAll(c: Crypto, s: State, b: Block)
    requires s.height < U32_MAX && b.header.blockNumber == s.height + 1
    ensures var x := ExecuteBlock(c, s, b);
            && (Accepted(x.receipts) == b.extrinsics <==>
                  Runnable(b.extrinsics, VerifyBatch(c, b.extrinsics)) && GapFree(b.extrinsics, s.nonces))
            && (Accepted(x.receipts) == b.extrinsics ==>
                  x.end == Returned(Ok) && Follows(s.nonces, b.extrinsics, x.state.nonces))
  {
    LoopAcceptsAll(s.(height := s.height + 1), b.extrinsics, VerifyBatch(c, b.extrinsics));
    BlockNonces(c, s, b);
  }

  // ---- two passes refine one ---------------------------------------------------------------------

  /** How a parallel iterator may divide a slice among workers. */
  datatype Split = Whole | Fork(at: nat, left: Split, right: Split)

  function VerifyParallel(c: Crypto, es: seq<Extrinsic>, how: Split): seq<DispatchResult>
    decreases how
  {
    match how
    case Whole => VerifyBatch(c, es)
    case Fork(at, left, right) =>
      if at <= |es| then VerifyParallel(c, es[..at], left) + VerifyParallel(c, es[at..], right)
      else VerifyParallel(c, es, left)
  }

  /** The verdict on an extrinsic does not depend on the slice it is in. */
  lemma SameVerdict(c: Crypto, es: seq<Extrinsic>, i: nat, fs: seq<Extrinsic>, j: nat)
    requires i < |es| && j < |fs| && es[i] == fs[j]
    ensures VerifyBatch(c, es)[i] == VerifyBatch(c, fs)[j]
  {}

  lemma Halves<T>(x: seq<T>, y: seq<T>, z: seq<T>)
    requires |z| == |x| + |y|
    requires forall i :: 0 <= i < |x| ==> x[i] == z[i]
    requires forall j :: 0 <= j < |y| ==> y[j] == z[|x| + j]
    ensures x + y == z
  {}

  lemma VerifySplit(c: Crypto, es: seq<Extrinsic>, at: nat)
    requires at <= |es|
    ensures VerifyBatch(c, es[..at]) + VerifyBatch(c, es[at..]) == VerifyBatch(c, es)
  {
    var x, y, z := VerifyBatch(c, es[..at]), VerifyBatch(c, es[at..]), VerifyBatch(c, es);
    forall i | 0 <= i < |x|
      ensures x[i] == z[i]
    {
      SameVerdict(c, es[..at], i, es, i);
    }
    forall j | 0 <= j < |y|
      ensures y[j] == z[|x| + j]
    {
      SameVerdict(c, es[at..], j, es, at + j);
    }
    Halves(x, y, z);
  }

  lemma {:induction false} SplitIrrelevant(c: Crypto, es: seq<Extrinsic>, how: Split)
    ensures VerifyParallel(c, es, how) == VerifyBatch(c, es)
    decreases how
  {
    match how
    case Whole =>
    case Fork(at, left, right) =>
      if at <= |es| {
        SplitIrrelevant(c, es[..at], left);
        SplitIrrelevant(c, es[at..], right);
        VerifySplit(c, es, at);
      } else {
        SplitIrrelevant(c, es, left);
      }
  }

  /** Verifying each extrinsic just before its own nonce check. */
  ghost function OnePass(c: Crypto, s: State, es: seq<Extrinsic>): Exec {
    if es == [] then Exec(s, [], [], Returned(Ok))
    else
      var x := OnePass(c, s, es[..|es| - 1]);
      if x.end.Panicked? then x else Join(x, Step(x.state, es[|es| - 1], Verify(c, es[|es| - 1])))
  }

  /** However the signature pass is split, both passes together do what one sequential pass does. */
  lemma {:induction false} TwoPassesRefineOne(c: Crypto, s: State, es: seq<Extrinsic>, how: Split)
    ensures |VerifyParallel(c, es, how)| == |es|
    ensures Loop(s, es, VerifyParallel(c, es, how)) == OnePass(c, s, es)
  {
    SplitIrrelevant(c, es, how);
    if es != [] {
      var n := |es| - 1;
      TwoPassesRefineOne(c, s, es[..n], Whole);
      assert VerifyBatch(c, es)[..n] == VerifyBatch(c, es[..n]);
    }
  }

  /** An accepted extrinsic whose call fails changes its signer's nonce and nothing else, in memory and in
      the store; one that is not accepted changes nothing. */
  lemma FailureTouchesOnlyTheNonce(s: State, e: Extrinsic, r: DispatchResult)
    ensures var x := Step(s, e, r);
            var status := x.receipts[0].status;
            && (status.Applied? && status.result.Err? ==>
                  && x.state == s.(nonces := s.nonces[e.signer := e.nonce + 1])
                  && Writes(x.log) == [PutNonce(e.signer, e.nonce + 1)])
            && (!status.Applied? ==> x.state == s && x.log == [])
  {
    var x := Step(s, e, r);
    if x.receipts[0].status.Applied? && x.receipts[0].status.result.Err? {
      assert Writes(x.log) == [x.log[0].write];
    }
  }

  // ---- what any block accepts --------------------------------------------------------------------

  /** The extrinsic can be entry `i` of a chain of `a` from `n` on. */
  ghost predicate Links(c: Crypto, e: Extrinsic, a: AccountId32, n: int, i: int) {
    e.signer == a && e.nonce == n + i < U32_MAX && Verify(c, e).Ok?
  }

  /** At the positions `at` of `es`, in order: validly signed extrinsics of `a` with nonces n, n + 1, …, all
      below the nonce that `inc_nonce` cannot pass. */
  ghost predicate Chain(c: Crypto, es: seq<Extrinsic>, a: AccountId32, n: int, at: seq<int>) {
    AllLink(c, es, a, n, at) && Increasing(at)
  }

  ghost predicate AllLink(c: Crypto, es: seq<Extrinsic>, a: AccountId32, n: int, at: seq<int>) {
    forall i :: 0 <= i < |at| ==> 0 <= at[i] < |es| && Links(c, es[at[i]], a, n, i)
  }

  predicate Increasing(at: seq<int>) { forall i, j :: 0 <= i < j < |at| ==> at[i] < at[j] }

  ghost predicate HasChain(c: Crypto, es: seq<Extrinsic>, a: AccountId32, n: int, len: nat) {
    exists at :: |at| == len && Chain(c, es, a, n, at)
  }

  lemma ChainInit(c: Crypto, es: seq<Extrinsic>, a: AccountId32, n: int, at: seq<int>)
    requires at != [] && Chain(c, es, a, n, at)
    ensures Chain(c, es[..at[|at| - 1]], a, n, at[..|at| - 1])
    ensures Links(c, es[at[|at| - 1]], a, n, |at| - 1)
  {}

  lemma ChainSnoc(c: Crypto, es: seq<Extrinsic>, e: Extrinsic, a: AccountId32, n: int, at: seq<int>)
    requires Chain(c, es, a, n, at) && Links(c, e, a, n, |at|)
    ensures Chain(c, es + [e], a, n, at + [|es|])
  {}

  lemma LastIsMost(at: seq<int>, i: int, m: int)
    requires Increasing(at) && 0 <= i < |at| && at[|at| - 1] < m
    ensures at[i] < m
  {}

  lemma LinkBefore(c: Crypto, es: seq<Extrinsic>, e: Extrinsic, a: AccountId32, n: int, at: seq<int>, i: int)
    requires AllLink(c, es + [e], a, n, at) && 0 <= i < |at| && at[i] < |es|
    ensures 0 <= at[i] && Links(c, es[at[i]], a, n, i)
  {
    assert (es + [e])[at[i]] == es[at[i]];
  }

  lemma ChainBefore(c: Crypto, es: seq<Extrinsic>, e: Extrinsic, a: AccountId32, n: int, at: seq<int>)
    requires Chain(c, es + [e], a, n, at) && (at == [] || at[|at| - 1] < |es|)
    ensures Chain(c, es, a, n, at)
  {
    forall i | 0 <= i < |at|
      ensures 0 <= at[i] < |es| && Links(c, es[at[i]], a, n, i)
    {
      LastIsMost(at, i, |es|);
      LinkBefore(c, es, e, a, n, at, i);
    }
  }

  /** A chain over one more extrinsic either does without it or ends with it. */
  lemma ChainOver(c: Crypto, es: seq<Extrinsic>, e: Extrinsic, a: AccountId32, n: int, at: seq<int>)
    requires Chain(c, es + [e], a, n, at)
    ensures || Chain(c, es, a, n, at)
            || (at != [] && Links(c, e, a, n, |at| - 1) && Chain(c, es, a, n, at[..|at| - 1]))
  {
    if at == [] || at[|at| - 1] < |es| {
      ChainBefore(c, es, e, a, n, at);
    } else {
      ChainInit(c, es + [e], a, n, at);
      assert (es + [e])[..|es|] == es;
    }
  }

  lemma HasChainFrom(c: Crypto, es: seq<Extrinsic>, e: Extrinsic, a: AccountId32, n: int, len: nat)
    requires HasChain(c, es + [e], a, n, len)
    ensures || HasChain(c, es, a, n, len)
            || (len > 0 && Links(c, e, a, n, len - 1) && HasChain(c, es, a, n, len - 1))
  {
    var at :| |at| == len && Chain(c, es + [e], a, n, at);
    ChainOver(c, es, e, a, n, at);
    if !Chain(c, es, a, n, at) {
      var init := at[..len - 1];
      assert |init| == len - 1 && Chain(c, es, a, n, init);
    }
  }

  lemma HasChainMore(c: Crypto, es: seq<Extrinsic>, e: Extrinsic, a: AccountId32, n: int, len: nat)
    requires HasChain(c, es, a, n, len) && Links(c, e, a, n, len)
    ensures HasChain(c, es + [e], a, n, len + 1)
  {
    var at :| |at| == len && Chain(c, es, a, n, at);
    ChainSnoc(c, es, e, a, n, at);
    assert |at + [|es|]| == len + 1;
  }

  /** One more extrinsic makes a chain possible only as its last entry. */
  lemma HasChainSnoc(c: Crypto, es: seq<Extrinsic>, e: Extrinsic, a: AccountId32, n: int, len: nat)
    ensures HasChain(c, es + [e], a, n, len) <==>
            || HasChain(c, es, a, n, len)
            || (len > 0 && Links(c, e, a, n, len - 1) && HasChain(c, es, a, n, len - 1))
  {
    if HasChain(c, es + [e], a, n, len) { HasChainFrom(c, es, e, a, n, len); }
    if len > 0 && Links(c, e, a, n, len - 1) && HasChain(c, es, a, n, len - 1) {
      HasChainMore(c, es, e, a, n, len - 1);
    }
  }

  lemma ChainNeedsExtrinsics(c: Crypto, es: seq<Extrinsic>, a: AccountId32, n: int, at: seq<int>)
    requires Chain(c, es, a, n, at) && at != []
    ensures es != []
  {
    assert 0 <= at[0] < |es|;
  }

  lemma NoChain(c: Crypto, a: AccountId32, n: int, len: nat)
    ensures HasChain(c, [], a, n, len) <==> len == 0
  {
    if HasChain(c, [], a, n, len) {
      var at :| |at| == len && Chain(c, [], a, n, at);
      if at != [] { ChainNeedsExtrinsics(c, [], a, n, at); }
    }
  }

  /** One more extrinsic that does not panic moves the nonce of `a` if it can be the next entry of a chain. */
  lemma StepMoves(c: Crypto, s: State, e: Extrinsic, a: AccountId32, n: int)
    requires Step(s, e, Verify(c, e)).end == Returned(Ok)
    ensures var m := NonceOf(s.nonces, a);
            NonceOf(Step(s, e, Verify(c, e)).state.nonces, a) == if Links(c, e, a, n, m - n) then m + 1 else m
  {
    StepAccepts(s, e, Verify(c, e));
  }

  /** While no extrinsic panics, an account's nonce has moved by at least `len` if and only if there is a chain
      of that length. */
  lemma {:induction false} PassCounts(c: Crypto, s: State, es: seq<Extrinsic>, a: AccountId32, len: nat)
    requires OnePass(c, s, es).end == Returned(Ok)
    ensures NonceOf(OnePass(c, s, es).state.nonces, a) >= NonceOf(s.nonces, a) + len <==>
            HasChain(c, es, a, NonceOf(s.nonces, a), len)
    decreases |es|
  {
    var n := NonceOf(s.nonces, a);
    if es == [] {
      NoChain(c, a, n, len);
    } else {
      var init, e := es[..|es| - 1], es[|es| - 1];
      assert es == init + [e];
      var t := OnePass(c, s, init).state;
      PassCounts(c, s, init, a, len);
      if len > 0 { PassCounts(c, s, init, a, len - 1); }
      HasChainSnoc(c, init, e, a, n, len);
      StepMoves(c, t, e, a, n);
      PassCounts(c, s, init, a, 0);
      LinkIsNext(c, e, a, n, NonceOf(t.nonces, a), len);
    }
  }

  lemma LinkIsNext(c: Crypto, e: Extrinsic, a: AccountId32, n: int, m: int, len: nat)
    requires m >= n
    ensures (if Links(c, e, a, n, m - n) then m + 1 else m) >= n + len <==>
            m >= n + len || (len > 0 && Links(c, e, a, n, len - 1) && m >= n + len - 1)
  {}

  lemma {:induction false} PassEnds(c: Crypto, s: State, es: seq<Extrinsic>)
    ensures OnePass(c, s, es).end in {Panicked, Returned(Ok)}
  {
    if es != [] { PassEnds(c, s, es[..|es| - 1]); }
  }

  // ---- which blocks panic ------------------------------------------------------------------------

  /** The extrinsic at `j` is validly signed and carries the greatest nonce, and the extrinsics before it take
      its signer there. */
  ghost predicate PanicsAt(c: Crypto, m: map<AccountId32, U32>, es: seq<Extrinsic>, j: int) {
    && 0 <= j < |es| && Verify(c, es[j]).Ok? && es[j].nonce == U32_MAX
    && HasChain(c, es[..j], es[j].signer, NonceOf(m, es[j].signer), U32_MAX - NonceOf(m, es[j].signer))
  }

  lemma PanicsBefore(c: Crypto, m: map<AccountId32, U32>, es: seq<Extrinsic>, e: Extrinsic, j: nat)
    requires j < |es|
    ensures PanicsAt(c, m, es + [e], j) <==> PanicsAt(c, m, es, j)
  {
    assert (es + [e])[..j] == es[..j];
    assert (es + [e])[j] == es[j];
  }

  lemma PanicsSnoc(c: Crypto, m: map<AccountId32, U32>, es: seq<Extrinsic>, e: Extrinsic)
    ensures (exists j :: PanicsAt(c, m, es + [e], j)) <==>
            (exists j :: PanicsAt(c, m, es, j)) || PanicsAt(c, m, es + [e], |es|)
  {
    forall j | 0 <= j < |es|
      ensures PanicsAt(c, m, es + [e], j) <==> PanicsAt(c, m, es, j)
    {
      PanicsBefore(c, m, es, e, j);
    }
  }

  lemma PanicsLast(c: Crypto, s: State, es: seq<Extrinsic>, e: Extrinsic)
    requires OnePass(c, s, es).end == Returned(Ok)
    ensures Step(OnePass(c, s, es).state, e, Verify(c, e)).end.Panicked? <==> PanicsAt(c, s.nonces, es + [e], |es|)
  {
    PassCounts(c, s, es, e.signer, U32_MAX - NonceOf(s.nonces, e.signer));
    assert (es + [e])[..|es|] == es;
  }

  lemma {:induction false} PassPanics(c: Crypto, s: State, es: seq<Extrinsic>)
    ensures OnePass(c, s, es).end.Panicked? <==> exists j :: PanicsAt(c, s.nonces, es, j)
  {
    if es != [] {
      var init, e := es[..|es| - 1], es[|es| - 1];
      PassPanics(c, s, init);
      PassEnds(c, s, init);
      PanicsSnoc(c, s.nonces, init, e);
      Rejoin(es);
      if OnePass(c, s, init).end.Returned? { PanicsLast(c, s, init, e); }
    }
  }

  /** A block panics if and only if the height is at its maximum already, or the block is the next one and holds
      a validly signed extrinsic at the greatest nonce, after others that take its signer there. */
  lemma PanicsExactly(c: Crypto, s: State, b: Block)
    ensures ExecuteBlock(c, s, b).end.Panicked? <==>
            || s.height == U32_MAX
            || (b.header.blockNumber == s.height + 1 && exists j :: PanicsAt(c, s.nonces, b.extrinsics, j))
  {
    if s.height < U32_MAX && b.header.blockNumber == s.height + 1 {
      var t := s.(height := s.height + 1);
      BlockIsLoop(c, s, b);
      TwoPassesRefineOne(c, t, b.extrinsics, Whole);
      PassPanics(c, t, b.extrinsics);
    } else {
      BlockIsRefused(c, s, b);
    }
  }

  // ---- which nonces a block accepts --------------------------------------------------------------

  /** Some extrinsic of `a` with nonce `k` is there. */
  predicate Carries(es: seq<Extrinsic>, a: AccountId32, k: int) {
    exists i :: 0 <= i < |es| && es[i].signer == a && es[i].nonce == k
  }

  ghost predicate HasNonce(xs: seq<Extrinsic>, m: int) { exists i :: 0 <= i < |xs| && xs[i].nonce == m }

  lemma CountedHas(xs: seq<Extrinsic>, n: int, m: int)
    requires CountsFrom(xs, n)
    ensures HasNonce(xs, m) <==> n <= m < n + |xs|
  {
    if n <= m < n + |xs| { assert xs[m - n].nonce == m; }
  }

  lemma {:induction false} AllBySigner(xs: seq<Extrinsic>, a: AccountId32)
    ensures forall i :: 0 <= i < |BySigner(xs, a)| ==> BySigner(xs, a)[i].signer == a && BySigner(xs, a)[i] in xs
  {
    if xs != [] {
      AllBySigner(xs[..|xs| - 1], a);
      assert xs == xs[..|xs| - 1] + [xs[|xs| - 1]];
    }
  }

  lemma CarriedBySigner(es: seq<Extrinsic>, a: AccountId32, k: int)
    ensures Carries(es, a, k) <==> HasNonce(BySigner(es, a), k)
  {
    var mine := BySigner(es, a);
    AllBySigner(es, a);
    if HasNonce(mine, k) {
      var j :| 0 <= j < |mine| && mine[j].nonce == k;
      var i :| 0 <= i < |es| && es[i] == mine[j];
    }
    if Carries(es, a, k) {
      var i :| 0 <= i < |es| && es[i].signer == a && es[i].nonce == k;
      NthOfSigner(es, i);
    }
  }

  lemma FollowsCarries(m: map<AccountId32, U32>, acc: seq<Extrinsic>, after: map<AccountId32, U32>,
                       a: AccountId32, k: int)
    requires Follows(m, acc, after)
    ensures Carries(acc, a, k) <==> NonceOf(m, a) <= k < NonceOf(after, a)
  {
    CarriedBySigner(acc, a, k);
    assert CountsFrom(BySigner(acc, a), NonceOf(m, a));
    CountedHas(BySigner(acc, a), NonceOf(m, a), k);
  }

  /** The acceptance rule for any block whatever that is not rejected: nonce `k` of `a` is accepted if and only
      if the block holds, in order, validly signed extrinsics of `a` with every nonce from the runtime's up to
      `k`; how many others there are, of whom, and where they stand does not matter. */
  lemma AcceptedExactly(c: Crypto, s: State, b: Block, a: AccountId32, k: int)
    requires ExecuteBlock(c, s, b).end == Returned(Ok)
    ensures var x := ExecuteBlock(c, s, b);
            var n := NonceOf(s.nonces, a);
            && (Carries(Accepted(x.receipts), a, k) <==> k >= n && HasChain(c, b.extrinsics, a, n, k - n + 1))
            && (NonceOf(x.state.nonces, a) > k <==> k < n || HasChain(c, b.extrinsics, a, n, k - n + 1))
  {
    var x, t := ExecuteBlock(c, s, b), s.(height := s.height + 1);
    var n := NonceOf(s.nonces, a);
    BlockIsLoop(c, s, b);
    TwoPassesRefineOne(c, t, b.extrinsics, Whole);
    BlockNonces(c, s, b);
    FollowsCarries(s.nonces, Accepted(x.receipts), x.state.nonces, a, k);
    if k >= n { PassCounts(c, t, b.extrinsics, a, k - n + 1); }
  }
}
