/** Exactly what a crash leaves: where a cut of the writes can fall, what is then on disk, by how much the
    persisted supply falls short, and which claims survive the whole life of a store (src/system.rs,
    src/balances.rs, src/proof_of_existence.rs, macros/src/runtime/expand.rs). */
module Crashes {
  import opened Types
  import opened Storage
  import opened RuntimeSpec
  import opened Durability
  import opened Supply
  import opened Claims
  import Nonces

  // ---- where a cut falls -------------------------------------------------------------------------

  /** What a process got through before it died: whole blocks, then, if it had begun another, the first
      `begun` of its extrinsics, and the first `part` writes of the next. */
  datatype Point = Point(blocks: nat, begun: Option<nat>, part: nat)

  predicate InRange(bs: seq<Block>, pt: Point) {
    && pt.blocks <= |bs|
    && (pt.begun.Some? ==> pt.blocks < |bs| && pt.begun.value <= |bs[pt.blocks].extrinsics|)
    && (pt.part > 0 ==> pt.begun.Some? && pt.begun.value < |bs[pt.blocks].extrinsics|)
  }

  function Truncated(b: Block, n: nat): Block
    requires n <= |b.extrinsics|
  {
    Block(b.header, b.extrinsics[..n])
  }

  /** The input that was executed in full. */
  function Through(bs: seq<Block>, pt: Point): seq<Block>
    requires InRange(bs, pt)
  {
    if pt.begun.None? then bs[..pt.blocks] else bs[..pt.blocks] + [Truncated(bs[pt.blocks], pt.begun.value)]
  }

  /** The extrinsic whose writes were cut. */
  function Interrupted(bs: seq<Block>, pt: Point): Extrinsic
    requires InRange(bs, pt) && pt.part > 0
  {
    bs[pt.blocks].extrinsics[pt.begun.value]
  }

  /** `kept` is the log of `xs` and the first `part` writes of `next`, which are not all it writes. */
  ghost predicate LogIs(kept: seq<Entry>, x: Exec, next: Exec, part: nat) {
    x.end == Returned(Ok) && part < |next.log| && kept == x.log + next.log[..part]
  }

  /** The durable writes are those of the input executed in full and, if an extrinsic was interrupted, the
      first `part` of its own. */
  ghost predicate CutAt(c: Crypto, s: State, bs: seq<Block>, kept: seq<Entry>, pt: Point) {
    && InRange(bs, pt)
    && var x := Run(c, s, Through(bs, pt));
       if pt.part == 0 then kept == x.log
       else
         var e := Interrupted(bs, pt);
         LogIs(kept, x, Step(x.state, e, Verify(c, e)), pt.part)
  }

  ghost predicate IsPrefix(kept: seq<Entry>, log: seq<Entry>) { |kept| <= |log| && kept == log[..|kept|] }

  lemma PrefixInFirst(kept: seq<Entry>, log: seq<Entry>, x: seq<Entry>, y: seq<Entry>)
    requires IsPrefix(kept, log) && log == x + y && |kept| <= |x|
    ensures IsPrefix(kept, x)
  {
    assert log[..|kept|] == x[..|kept|];
  }

  lemma PrefixPast(kept: seq<Entry>, log: seq<Entry>, x: seq<Entry>, y: seq<Entry>) returns (q: seq<Entry>)
    requires IsPrefix(kept, log) && log == x + y && |kept| >= |x|
    ensures kept == x + q && IsPrefix(q, y)
  {
    q := y[..|kept| - |x|];
    assert log[..|kept|] == x + q;
  }

  ghost predicate LoopCutAt(s: State, es: seq<Extrinsic>, rs: seq<DispatchResult>, kept: seq<Entry>, j: nat, part: nat)
    requires |es| == |rs|
  {
    && j <= |es|
    && var x := Loop(s, es[..j], rs[..j]);
       if part == 0 then kept == x.log
       else j < |es| && LogIs(kept, x, Step(x.state, es[j], rs[j]), part)
  }

  lemma LoopCutLonger(s: State, es: seq<Extrinsic>, rs: seq<DispatchResult>, n: nat, kept: seq<Entry>,
                      j: nat, part: nat)
    requires |es| == |rs| && n <= |es| && LoopCutAt(s, es[..n], rs[..n], kept, j, part)
    ensures LoopCutAt(s, es, rs, kept, j, part)
  {
    assert es[..n][..j] == es[..j] && rs[..n][..j] == rs[..j];
  }

  lemma LoopCutHere(s: State, es: seq<Extrinsic>, rs: seq<DispatchResult>, n: nat, kept: seq<Entry>, q: seq<Entry>)
    requires |es| == |rs| == n + 1 && Loop(s, es[..n], rs[..n]).end == Returned(Ok)
    requires var x := Loop(s, es[..n], rs[..n]);
             kept == x.log + q && q != [] && IsPrefix(q, Step(x.state, es[n], rs[n]).log)
    ensures exists j, part :: LoopCutAt(s, es, rs, kept, j, part)
  {
    var x := Loop(s, es[..n], rs[..n]);
    var y := Step(x.state, es[n], rs[n]);
    if |q| == |y.log| {
      assert y.log[..|q|] == y.log;
      assert es[..n + 1] == es && rs[..n + 1] == rs;
      assert LoopCutAt(s, es, rs, kept, n + 1, 0);
    } else {
      assert LoopCutAt(s, es, rs, kept, n, |q|);
    }
  }

  lemma {:induction false} LoopCut(s: State, es: seq<Extrinsic>, rs: seq<DispatchResult>, kept: seq<Entry>)
    requires |es| == |rs| && IsPrefix(kept, Loop(s, es, rs).log)
    ensures exists j, part :: LoopCutAt(s, es, rs, kept, j, part)
  {
    if es == [] {
      assert LoopCutAt(s, es, rs, kept, 0, 0);
    } else {
      var n := |es| - 1;
      var x := Loop(s, es[..n], rs[..n]);
      var more := if x.end.Panicked? then [] else Step(x.state, es[n], rs[n]).log;
      assert Loop(s, es, rs).log == x.log + more;
      if |kept| <= |x.log| {
        PrefixInFirst(kept, Loop(s, es, rs).log, x.log, more);
        LoopCut(s, es[..n], rs[..n], kept);
        var j, part :| LoopCutAt(s, es[..n], rs[..n], kept, j, part);
        LoopCutLonger(s, es, rs, n, kept, j, part);
      } else {
        var q := PrefixPast(kept, Loop(s, es, rs).log, x.log, more);
        LoopCutHere(s, es, rs, n, kept, q);
      }
    }
  }

  /** The same for one block of which at least the height was written. */
  ghost predicate BlockCutAt(c: Crypto, s: State, b: Block, kept: seq<Entry>, j: nat, part: nat) {
    && j <= |b.extrinsics|
    && var x := ExecuteBlock(c, s, Truncated(b, j));
       if part == 0 then kept == x.log
       else j < |b.extrinsics| && LogIs(kept, x, Step(x.state, b.extrinsics[j], Verify(c, b.extrinsics[j])), part)
  }

  lemma TruncatedIsLoop(c: Crypto, s: State, b: Block, j: nat)
    requires s.height < U32_MAX && b.header.blockNumber == s.height + 1 && j <= |b.extrinsics|
    ensures var x := Loop(s.(height := s.height + 1), b.extrinsics[..j], VerifyBatch(c, b.extrinsics)[..j]);
            ExecuteBlock(c, s, Truncated(b, j)) == x.(log := [Entry(PutHeight(s.height + 1), None)] + x.log)
  {
    BlockIsLoop(c, s, Truncated(b, j));
    assert VerifyBatch(c, b.extrinsics[..j]) == VerifyBatch(c, b.extrinsics)[..j];
  }

  lemma BlockCutFromLoop(c: Crypto, s: State, b: Block, kept: seq<Entry>, q: seq<Entry>, j: nat, part: nat)
    requires s.height < U32_MAX && b.header.blockNumber == s.height + 1
    requires kept == [Entry(PutHeight(s.height + 1), None)] + q
    requires LoopCutAt(s.(height := s.height + 1), b.extrinsics, VerifyBatch(c, b.extrinsics), q, j, part)
    ensures BlockCutAt(c, s, b, kept, j, part)
  {
    TruncatedIsLoop(c, s, b, j);
    if part > 0 {
      var x := Loop(s.(height := s.height + 1), b.extrinsics[..j], VerifyBatch(c, b.extrinsics)[..j]);
      var y := Step(x.state, b.extrinsics[j], Verify(c, b.extrinsics[j]));
      Assoc([Entry(PutHeight(s.height + 1), None)], x.log, y.log[..part]);
    }
  }

  lemma BlockCut(c: Crypto, s: State, b: Block, kept: seq<Entry>)
    requires kept != [] && IsPrefix(kept, ExecuteBlock(c, s, b).log)
    ensures exists j, part :: BlockCutAt(c, s, b, kept, j, part)
  {
    var first := [Entry(PutHeight(s.height + 1), None)];
    if b.header.blockNumber != s.height + 1 {
      assert kept == first;
      assert BlockCutAt(c, s, b, kept, 0, 0);
    } else {
      var es, rs, t := b.extrinsics, VerifyBatch(c, b.extrinsics), s.(height := s.height + 1);
      BlockIsLoop(c, s, b);
      var q := PrefixPast(kept, ExecuteBlock(c, s, b).log, first, Loop(t, es, rs).log);
      LoopCut(t, es, rs, q);
      var j, part :| LoopCutAt(t, es, rs, q, j, part);
      BlockCutFromLoop(c, s, b, kept, q, j, part);
    }
  }

  lemma CutInBlock(c: Crypto, s: State, bs: seq<Block>, n: nat, kept: seq<Entry>, q: seq<Entry>, j: nat, part: nat)
    requires n < |bs| && Run(c, s, bs[..n]).end.Returned?
    requires kept == Run(c, s, bs[..n]).log + q && BlockCutAt(c, Run(c, s, bs[..n]).state, bs[n], q, j, part)
    ensures CutAt(c, s, bs, kept, Point(n, Some(j), part))
  {
    var x := Run(c, s, bs[..n]);
    var y := ExecuteBlock(c, x.state, Truncated(bs[n], j));
    if part > 0 {
      var z := Step(y.state, bs[n].extrinsics[j], Verify(c, bs[n].extrinsics[j]));
      Assoc(x.log, y.log, z.log[..part]);
    }
  }

  lemma CutLonger(c: Crypto, s: State, bs: seq<Block>, n: nat, kept: seq<Entry>, pt: Point)
    requires n <= |bs| && CutAt(c, s, bs[..n], kept, pt)
    ensures CutAt(c, s, bs, kept, pt)
  {
    assert bs[..n][..pt.blocks] == bs[..pt.blocks];
  }

  /** Every cut of the log of a run falls at such a point. */
  lemma {:induction false} RunCut(c: Crypto, s: State, bs: seq<Block>, kept: seq<Entry>)
    requires IsPrefix(kept, Run(c, s, bs).log)
    ensures exists pt :: CutAt(c, s, bs, kept, pt)
  {
    if bs == [] {
      assert CutAt(c, s, bs, kept, Point(0, None, 0));
    } else {
      var n := |bs| - 1;
      var x := Run(c, s, bs[..n]);
      var more := if x.end.Panicked? then [] else ExecuteBlock(c, x.state, bs[n]).log;
      assert Run(c, s, bs).log == x.log + more;
      if |kept| <= |x.log| {
        PrefixInFirst(kept, Run(c, s, bs).log, x.log, more);
        RunCut(c, s, bs[..n], kept);
        var pt :| CutAt(c, s, bs[..n], kept, pt);
        CutLonger(c, s, bs, n, kept, pt);
      } else {
        var q := PrefixPast(kept, Run(c, s, bs).log, x.log, more);
        BlockCut(c, x.state, bs[n], q);
        var j, part :| BlockCutAt(c, x.state, bs[n], q, j, part);
        CutInBlock(c, s, bs, n, kept, q, j, part);
      }
    }
  }

  // ---- what is then on disk ----------------------------------------------------------------------

  /** The ledger after the first `part` writes of an extrinsic: its nonce, then the debit of a transfer. */
  function Partly(s: State, e: Extrinsic, part: nat): State {
    if part == 0 || e.nonce == U32_MAX then s
    else
      var bumped := s.(nonces := s.nonces[e.signer := e.nonce + 1]);
      if part > 1 && Debits(s, e) then Debited(bumped, e) else bumped
  }

  predicate Debits(s: State, e: Extrinsic) {
    e.call.Balances? && e.call.balances.amount <= BalanceOf(s.balances, e.signer)
  }

  function Debited(s: State, e: Extrinsic): State
    requires Debits(s, e)
  {
    s.(balances := s.balances[e.signer := BalanceOf(s.balances, e.signer) - e.call.balances.amount])
  }

  lemma TransferPart(st: Store, s: State, a: AccountId32, to: AccountId32, amount: U128, n: nat)
    requires Synced(st, s) && n < |TransferEffect(s, a, to, amount).writes|
    ensures n <= 1 && amount <= BalanceOf(s.balances, a)
    ensures Synced(Replay(st, TransferEffect(s, a, to, amount).writes[..n]),
                   if n == 0 then s else s.(balances := s.balances[a := BalanceOf(s.balances, a) - amount]))
    ensures Replay(st, TransferEffect(s, a, to, amount).writes[..n]).claims == st.claims
  {
    var w := TransferEffect(s, a, to, amount).writes;
    if n == 0 {
      NothingWritten(st);
    } else {
      assert w[..1] == [w[0]];
      ReplayOne(st, w[0]);
    }
  }

  /** A proper prefix of a call's writes is nothing, or the debit of a transfer that goes through. */
  lemma DispatchPart(st: Store, s: State, a: AccountId32, call: RuntimeCall, n: nat)
    requires Synced(st, s) && n < |Dispatch(s, a, call).writes|
    ensures n > 0 ==> n == 1 && call.Balances? && call.balances.amount <= BalanceOf(s.balances, a)
    ensures Synced(Replay(st, Dispatch(s, a, call).writes[..n]),
                   if n == 0 then s
                   else s.(balances := s.balances[a := BalanceOf(s.balances, a) - call.balances.amount]))
    ensures Replay(st, Dispatch(s, a, call).writes[..n]).claims == st.claims
  {
    match call
    case Balances(Transfer(to, amount)) =>
      TransferPart(st, s, a, to, amount, n);
    case ProofOfExistence(poe) =>
      NothingWritten(st);
  }

  lemma PartOfLog(first: Entry, ws: seq<Write>, id: CallId, log: seq<Entry>, part: nat)
    requires log == [first] + Tagged(ws, Some(id)) && 0 < part < |log|
    ensures part - 1 < |ws| && log[..part] == [first] + Tagged(ws[..part - 1], Some(id))
  {}

  lemma NonceThenPart(st: Store, t: State, e: Extrinsic, n: nat)
    requires e.nonce < U32_MAX && n < |Dispatch(t, e.signer, e.call).writes|
    requires Synced(Apply(st, PutNonce(e.signer, e.nonce + 1)), t)
    ensures n > 0 ==> n == 1 && Debits(t, e)
    ensures var put, id := Entry(PutNonce(e.signer, e.nonce + 1), None), CallId(e.signer, e.nonce);
            var after := After(st, [put] + Tagged(Dispatch(t, e.signer, e.call).writes[..n], Some(id)));
            after.claims == st.claims && Synced(after, if n == 0 then t else Debited(t, e))
  {
    var ws := Dispatch(t, e.signer, e.call).writes[..n];
    AfterNonce(st, e.signer, e.nonce + 1, ws, CallId(e.signer, e.nonce));
    DispatchPart(Apply(st, PutNonce(e.signer, e.nonce + 1)), t, e.signer, e.call, n);
  }

  lemma PartOfStep(st: Store, s: State, t: State, e: Extrinsic, log: seq<Entry>, part: nat)
    requires Synced(st, s) && e.nonce < U32_MAX && t == s.(nonces := s.nonces[e.signer := e.nonce + 1])
    requires log == [Entry(PutNonce(e.signer, e.nonce + 1), None)]
                    + Tagged(Dispatch(t, e.signer, e.call).writes, Some(CallId(e.signer, e.nonce)))
    requires 0 < part < |log|
    ensures Synced(After(st, log[..part]), Partly(s, e, part)) && After(st, log[..part]).claims == st.claims
    ensures part <= 2 && (part == 2 ==> Debits(s, e))
  {
    var ws := Dispatch(t, e.signer, e.call).writes;
    PartOfLog(Entry(PutNonce(e.signer, e.nonce + 1), None), ws, CallId(e.signer, e.nonce), log, part);
    NonceThenPart(st, t, e, part - 1);
  }

  /** An extrinsic cut short: the store is in step with the ledger after those of its writes that got through,
      and no claim has changed. */
  lemma StepPart(st: Store, s: State, e: Extrinsic, r: DispatchResult, part: nat)
    requires Synced(st, s) && 0 < part < |Step(s, e, r).log|
    ensures Synced(After(st, Step(s, e, r).log[..part]), Partly(s, e, part))
    ensures After(st, Step(s, e, r).log[..part]).claims == st.claims
    ensures part <= 2 && (part == 2 ==> Debits(s, e))
  {
    StepLog(s, e, r);
    PartOfStep(st, s, s.(nonces := s.nonces[e.signer := e.nonce + 1]), e, Step(s, e, r).log, part);
  }

  /** Memory as the cut found it, without claims that were not persisted. */
  ghost function LedgerAt(c: Crypto, s: State, bs: seq<Block>, pt: Point): State
    requires InRange(bs, pt)
  {
    var x := Run(c, s, Through(bs, pt)).state;
    if pt.part == 0 then x else Partly(x, Interrupted(bs, pt), pt.part)
  }

  /** What a crash leaves, exactly: height, nonces and balances are those after the input executed in full and
      then the nonce, or the nonce and the debit, of one more extrinsic; the claims are those that the input
      executed in full had saved. */
  lemma CrashLeaves(c: Crypto, st: Store, s: State, bs: seq<Block>, kept: seq<Entry>, pt: Point)
    requires Synced(st, s) && CutAt(c, s, bs, kept, pt)
    ensures SameLedger(Load(After(st, kept)), LedgerAt(c, s, bs, pt))
    ensures After(st, kept).claims == After(st, Run(c, s, Through(bs, pt)).log).claims
    ensures pt.part <= 2 && (pt.part == 2 ==> Debits(Run(c, s, Through(bs, pt)).state, Interrupted(bs, pt)))
  {
    var x := Run(c, s, Through(bs, pt));
    RunSynced(c, st, s, Through(bs, pt));
    if pt.part > 0 {
      var e := Interrupted(bs, pt);
      AfterConcat(st, x.log, Step(x.state, e, Verify(c, e)).log[..pt.part]);
      StepPart(After(st, x.log), x.state, e, Verify(c, e), pt.part);
    }
  }

  // ---- by how much the supply falls short --------------------------------------------------------

  /** The amount of a transfer whose debit is durable and whose credit is not. */
  function Shortfall(bs: seq<Block>, pt: Point): nat
    requires InRange(bs, pt)
  {
    if pt.part > 1 && Interrupted(bs, pt).call.Balances? then Interrupted(bs, pt).call.balances.amount else 0
  }

  lemma PartlyTotal(s: State, e: Extrinsic, part: nat)
    requires part == 2 ==> Debits(s, e) && e.nonce < U32_MAX
    ensures part <= 1 ==> Total(Partly(s, e, part).balances) == Total(s.balances)
    ensures part == 2 ==> Total(Partly(s, e, part).balances) == Total(s.balances) - e.call.balances.amount
  {
    if part == 2 { TotalUpdate(s.balances, e.signer, BalanceOf(s.balances, e.signer) - e.call.balances.amount); }
  }

  /** The persisted supply after a crash: the starting one, what completed self-transfers added, less a
      transfer caught between its two writes, and nothing else. */
  lemma TotalAfterCrash(c: Crypto, st: Store, s: State, bs: seq<Block>, kept: seq<Entry>, pt: Point)
    requires Synced(st, s) && CutAt(c, s, bs, kept, pt)
    ensures Total(After(st, kept).balances) + Shortfall(bs, pt) ==
            Total(st.balances) + Minted(Run(c, s, Through(bs, pt)).receipts)
  {
    var x := Run(c, s, Through(bs, pt));
    CrashLeaves(c, st, s, bs, kept, pt);
    SupplyExactly(c, s, Through(bs, pt));
    if pt.part > 0 {
      var e := Interrupted(bs, pt);
      StepLog(x.state, e, Verify(c, e));
      PartlyTotal(x.state, e, pt.part);
    }
  }

  // ---- whole lives -------------------------------------------------------------------------------

  /** What of an incarnation's durable writes comes after genesis. */
  ghost function Worked(c: Crypto, dev: Dev, st: Store, i: Incarnation): seq<Entry> {
    var g := Genesis(c, dev, Load(st));
    var kept := Durable(c, dev, st, i);
    if |kept| <= |g.log| then [] else kept[|g.log|..]
  }

  /** The point at which an incarnation died. */
  ghost function PointOf(c: Crypto, dev: Dev, st: Store, i: Incarnation): (pt: Point)
    ensures CutAt(c, Genesis(c, dev, Load(st)).state, i.blocks, Worked(c, dev, st, i), pt)
  {
    RunCut(c, Genesis(c, dev, Load(st)).state, i.blocks, Worked(c, dev, st, i));
    var pt :| CutAt(c, Genesis(c, dev, Load(st)).state, i.blocks, Worked(c, dev, st, i), pt);
    pt
  }

  /** The receipts of what an incarnation got through. */
  ghost function Receipts(c: Crypto, dev: Dev, st: Store, i: Incarnation): seq<Receipt> {
    Run(c, Genesis(c, dev, Load(st)).state, Through(i.blocks, PointOf(c, dev, st, i))).receipts
  }

  ghost function MintedOver(c: Crypto, dev: Dev, st: Store, lives: seq<Incarnation>): nat {
    if lives == [] then 0
    else
      var n := |lives| - 1;
      MintedOver(c, dev, st, lives[..n]) + Minted(Receipts(c, dev, Survives(c, dev, st, lives[..n]), lives[n]))
  }

  ghost function ShortOver(c: Crypto, dev: Dev, st: Store, lives: seq<Incarnation>): nat {
    if lives == [] then 0
    else
      var n := |lives| - 1;
      ShortOver(c, dev, st, lives[..n])
        + Shortfall(lives[n].blocks, PointOf(c, dev, Survives(c, dev, st, lives[..n]), lives[n]))
  }

  /** The height never goes down. */
  lemma {:induction false} RunHeight(c: Crypto, s: State, bs: seq<Block>)
    ensures Run(c, s, bs).state.height >= s.height
  {
    if bs != [] {
      var n := |bs| - 1;
      RunHeight(c, s, bs[..n]);
      var x := Run(c, s, bs[..n]);
      if x.end.Returned? { BlockHeight(c, x.state, bs[n]); }
    }
  }

  lemma BlockHeight(c: Crypto, s: State, b: Block)
    ensures ExecuteBlock(c, s, b).state.height >= s.height
  {
    if s.height < U32_MAX && b.header.blockNumber == s.height + 1 {
      BlockIsLoop(c, s, b);
      Nonces.LoopNonces(s.(height := s.height + 1), b.extrinsics, VerifyBatch(c, b.extrinsics));
    } else {
      BlockIsRefused(c, s, b);
    }
  }

  lemma StartedAtCut(c: Crypto, st: Store, s: State, bs: seq<Block>, kept: seq<Entry>, pt: Point)
    requires Synced(st, s) && s.height > 0 && CutAt(c, s, bs, kept, pt)
    ensures Load(After(st, kept)).height > 0
  {
    CrashLeaves(c, st, s, bs, kept, pt);
    RunHeight(c, s, Through(bs, pt));
  }

  lemma StartedLife(c: Crypto, dev: Dev, st: Store, i: Incarnation)
    requires Load(st).height > 0
    ensures Genesis(c, dev, Load(st)) == Exec(Load(st), [], [], Returned(Ok))
    ensures Worked(c, dev, st, i) == Durable(c, dev, st, i)
    ensures Load(After(st, Durable(c, dev, st, i))).height > 0
  {
    var s, kept := Load(st), Durable(c, dev, st, i);
    var log := Process(c, dev, st, i.blocks).log;
    assert log == [] + Run(c, s, i.blocks).log == Run(c, s, i.blocks).log;
    assert kept == log[..|kept|];
    StartedAtCut(c, st, s, i.blocks, kept, PointOf(c, dev, st, i));
  }

  /** The supply over any life of a started chain, crashes at any writes included, to the last token: what
      there was and what self-transfers added, less the transfers that a crash caught between their two
      writes. */
  lemma {:induction false} LivesTotalExactly(c: Crypto, dev: Dev, st: Store, lives: seq<Incarnation>)
    requires Load(st).height > 0
    ensures Load(Survives(c, dev, st, lives)).height > 0
    ensures Total(Survives(c, dev, st, lives).balances) + ShortOver(c, dev, st, lives) ==
            Total(st.balances) + MintedOver(c, dev, st, lives)
  {
    if lives != [] {
      var n := |lives| - 1;
      LivesTotalExactly(c, dev, st, lives[..n]);
      var mid := Survives(c, dev, st, lives[..n]);
      StartedLife(c, dev, mid, lives[n]);
      var pt := PointOf(c, dev, mid, lives[n]);
      TotalAfterCrash(c, mid, Load(mid), lives[n].blocks, Durable(c, dev, mid, lives[n]), pt);
    }
  }

  lemma ThroughNoSelf(bs: seq<Block>, pt: Point)
    requires InRange(bs, pt) && NoSelfTransfers(bs)
    ensures NoSelfTransfers(Through(bs, pt))
  {}

  /** Without self-transfers, no cut of a run's writes leaves more than there was: the debit is written before
      the credit. */
  lemma RunCapped(c: Crypto, st: Store, s: State, bs: seq<Block>, kept: seq<Entry>)
    requires Synced(st, s) && NoSelfTransfers(bs) && IsPrefix(kept, Run(c, s, bs).log)
    ensures Total(After(st, kept).balances) <= Total(st.balances)
    ensures s.height > 0 ==> Load(After(st, kept)).height > 0
  {
    RunCut(c, s, bs, kept);
    var pt :| CutAt(c, s, bs, kept, pt);
    TotalAfterCrash(c, st, s, bs, kept, pt);
    ThroughNoSelf(bs, pt);
    RunMintsNothing(c, s, Through(bs, pt));
    if s.height > 0 { StartedAtCut(c, st, s, bs, kept, pt); }
  }

  lemma LifeCapped(c: Crypto, dev: Dev, st: Store, i: Incarnation)
    requires Load(st).height > 0 && NoSelfTransfers(i.blocks)
    ensures var after := After(st, Durable(c, dev, st, i));
            Load(after).height > 0 && Total(after.balances) <= Total(st.balances)
  {
    StartedLife(c, dev, st, i);
    RunCapped(c, st, Load(st), i.blocks, Durable(c, dev, st, i));
  }

  /** Crashes never create tokens: whatever a started chain without self-transfers executes, and at
      whatever write any of its processes dies, the persisted total never exceeds the one it started with. */
  lemma {:induction false} CrashesNeverMint(c: Crypto, dev: Dev, st: Store, lives: seq<Incarnation>)
    requires Load(st).height > 0 && NoSelfTransfersIn(lives)
    ensures Load(Survives(c, dev, st, lives)).height > 0
    ensures Total(Survives(c, dev, st, lives).balances) <= Total(st.balances)
  {
    if lives != [] {
      var n := |lives| - 1;
      CrashesNeverMint(c, dev, st, lives[..n]);
      LifeCapped(c, dev, Survives(c, dev, st, lives[..n]), lives[n]);
    }
  }

  // ---- which claims survive ----------------------------------------------------------------------

  /** The successful claim calls that an incarnation got through. */
  ghost function DurableOps(c: Crypto, dev: Dev, st: Store, i: Incarnation): seq<ClaimOp> {
    Ops(Receipts(c, dev, st, i))
  }

  ghost function OpsOver(c: Crypto, dev: Dev, st: Store, lives: seq<Incarnation>): (r: seq<seq<ClaimOp>>)
    ensures |r| == |lives|
  {
    if lives == [] then []
    else
      var n := |lives| - 1;
      OpsOver(c, dev, st, lives[..n]) + [DurableOps(c, dev, Survives(c, dev, st, lives[..n]), lives[n])]
  }

  /** The claims on disk after incarnations with these calls: each starts with what is on disk in memory. */
  ghost function OnDisk(start: set<Content>, lives: seq<seq<ClaimOp>>): set<Content> {
    if lives == [] then start
    else
      var before, ops := OnDisk(start, lives[..|lives| - 1]), lives[|lives| - 1];
      set k | k in Held(before, ops) && Saved(before, before, ops, k)
  }

  ghost predicate NoClaimWrites(log: seq<Entry>) {
    forall i :: 0 <= i < |log| ==> !log[i].write.PutClaim? && !log[i].write.DeleteClaim?
  }

  lemma {:induction false} ClaimsUntouched(st: Store, log: seq<Entry>)
    requires NoClaimWrites(log)
    ensures After(st, log).claims == st.claims
  {
    if log == [] {
      NothingWritten(st);
    } else {
      var n := |log| - 1;
      ClaimsUntouched(st, log[..n]);
      assert Writes(log)[..n] == Writes(log[..n]);
    }
  }

  lemma EndowSynced(dev: Dev, st: Store, s: State)
    requires Synced(st, s)
    ensures Synced(After(st, Tagged(Endowments(dev), None)), s.(balances := Endow(s.balances, dev)))
  {
    var a, b, d := PutBalance(dev.alice, ENDOWMENT), PutBalance(dev.bob, ENDOWMENT), PutBalance(dev.charlie, ENDOWMENT);
    assert Writes(Tagged(Endowments(dev), None)) == [a, b] + [d];
    ReplayConcat(st, [a, b], [d]);
    ReplayTwo(st, a, b);
    ReplayOne(Replay(st, [a, b]), d);
  }

  /** After an uncut genesis memory and store are in step, with the claims there were. */
  lemma GenesisSynced(c: Crypto, dev: Dev, st: Store)
    ensures var g := Genesis(c, dev, Load(st));
            Synced(After(st, g.log), g.state) && g.state.claims == st.claims && NoClaimWrites(g.log)
  {
    var s := Load(st);
    var g := Genesis(c, dev, s);
    if s.height != 0 {
      NothingWritten(st);
    } else {
      var t, puts, b := s.(balances := Endow(s.balances, dev)), Tagged(Endowments(dev), None), Block(Header(1), []);
      var x := ExecuteBlock(c, t, b);
      BlockIsLoop(c, t, b);
      EndowSynced(dev, st, s);
      BlockSynced(c, After(st, puts), t, b);
      AfterConcat(st, puts, x.log);
      assert x.log == [Entry(PutHeight(1), None)];
    }
  }

  lemma KeptSplits(c: Crypto, dev: Dev, st: Store, i: Incarnation)
    ensures var g, kept := Genesis(c, dev, Load(st)).log, Durable(c, dev, st, i);
            kept == if |kept| <= |g| then g[..|kept|] else g + Worked(c, dev, st, i)
  {
    var g := Genesis(c, dev, Load(st));
    var kept, log := Durable(c, dev, st, i), Process(c, dev, st, i.blocks).log;
    assert kept == log[..|kept|];
    var more := if g.end.Panicked? then [] else Run(c, g.state, i.blocks).log;
    assert log == g.log + more;
    if |kept| <= |g.log| {
      PrefixInFirst(kept, log, g.log, more);
    } else {
      var q := PrefixPast(kept, log, g.log, more);
      assert kept[|g.log|..] == q;
    }
  }

  /** What an incarnation leaves of the claims is what its work leaves after an uncut genesis. */
  lemma ClaimsOfWork(c: Crypto, dev: Dev, st: Store, i: Incarnation)
    ensures After(st, Durable(c, dev, st, i)).claims ==
            After(After(st, Genesis(c, dev, Load(st)).log), Worked(c, dev, st, i)).claims
  {
    var g := Genesis(c, dev, Load(st));
    var kept, w := Durable(c, dev, st, i), Worked(c, dev, st, i);
    GenesisSynced(c, dev, st);
    ClaimsUntouched(st, g.log);
    KeptSplits(c, dev, st, i);
    if |kept| <= |g.log| {
      ClaimsUntouched(st, kept);
      NothingWritten(After(st, g.log));
    } else {
      AfterConcat(st, g.log, w);
    }
  }

  /** One incarnation: what of the claims is on disk after it. */
  lemma LifeClaims(c: Crypto, dev: Dev, st: Store, i: Incarnation, k: Content)
    ensures var before, ops := st.claims.Keys, DurableOps(c, dev, st, i);
            k in After(st, Durable(c, dev, st, i)).claims <==> k in Held(before, ops) && Saved(before, before, ops, k)
  {
    var g := Genesis(c, dev, Load(st));
    var begun, pt, w := After(st, g.log), PointOf(c, dev, st, i), Worked(c, dev, st, i);
    var through := Through(i.blocks, pt);
    GenesisSynced(c, dev, st);
    ClaimsUntouched(st, g.log);
    ClaimsOfWork(c, dev, st, i);
    CrashLeaves(c, begun, g.state, i.blocks, w, pt);
    ClaimSaved(c, begun, g.state, through, k);
    RunSynced(c, begun, g.state, through);
  }

  lemma OnDiskSnoc(start: set<Content>, lives: seq<seq<ClaimOp>>, ops: seq<ClaimOp>, k: Content)
    ensures var before := OnDisk(start, lives);
            k in OnDisk(start, lives + [ops]) <==> k in Held(before, ops) && Saved(before, before, ops, k)
  {
    assert (lives + [ops])[..|lives|] == lives;
  }

  lemma {:induction false} DiskAfterLives(c: Crypto, dev: Dev, st: Store, lives: seq<Incarnation>)
    ensures Survives(c, dev, st, lives).claims.Keys == OnDisk(st.claims.Keys, OpsOver(c, dev, st, lives))
  {
    if lives != [] {
      var n := |lives| - 1;
      DiskAfterLives(c, dev, st, lives[..n]);
      DiskAfterOne(st.claims.Keys, OpsOver(c, dev, st, lives[..n]), c, dev, Survives(c, dev, st, lives[..n]), lives[n]);
    }
  }

  lemma DiskAfterOne(start: set<Content>, opss: seq<seq<ClaimOp>>, c: Crypto, dev: Dev, mid: Store, i: Incarnation)
    requires mid.claims.Keys == OnDisk(start, opss)
    ensures After(mid, Durable(c, dev, mid, i)).claims.Keys == OnDisk(start, opss + [DurableOps(c, dev, mid, i)])
  {
    forall k
      ensures k in After(mid, Durable(c, dev, mid, i)).claims <==>
              k in OnDisk(start, opss + [DurableOps(c, dev, mid, i)])
    {
      LifeClaims(c, dev, mid, i, k);
      OnDiskSnoc(start, opss, DurableOps(c, dev, mid, i), k);
    }
  }

  ghost predicate NeverRevoked(lives: seq<seq<ClaimOp>>, k: Content) {
    forall l :: 0 <= l < |lives| ==> Revoked(k) !in lives[l]
  }

  /** Create `i` of incarnation `l`, of whatever claim, found `k` the greatest in memory, which began as what
      was then on disk; and no revoke of `k` came after, in that incarnation or a later one. */
  ghost predicate SavedIn(start: set<Content>, lives: seq<seq<ClaimOp>>, l: int, i: int, k: Content) {
    && 0 <= l < |lives| && SavedAt(OnDisk(start, lives[..l]), lives[l], i, k)
    && NeverRevoked(lives[l + 1..], k)
  }

  ghost predicate SavedOver(start: set<Content>, lives: seq<seq<ClaimOp>>, k: Content) {
    (k in start && NeverRevoked(lives, k)) || exists l, i :: SavedIn(start, lives, l, i, k)
  }

  lemma {:induction false} HeldOn(start: set<Content>, ops: seq<ClaimOp>, i: nat, k: Content)
    requires i <= |ops| && k in Held(start, ops[..i]) && Revoked(k) !in ops[i..]
    ensures k in Held(start, ops)
    decreases |ops|
  {
    if i == |ops| {
      assert ops[..i] == ops;
    } else {
      var n := |ops| - 1;
      assert ops[..n][..i] == ops[..i] && ops[i..] == ops[..n][i..] + [ops[n]];
      HeldOn(start, ops[..n], i, k);
    }
  }

  lemma SavedIsHeld(start: set<Content>, ops: seq<ClaimOp>, k: Content)
    requires Saved(start, start, ops, k)
    ensures k in Held(start, ops)
  {
    if k in start && Revoked(k) !in ops {
      assert ops[..0] == [] && ops[0..] == ops;
      HeldOn(start, ops, 0, k);
    } else {
      var i :| SavedAt(start, ops, i, k);
      HeldOn(start, ops, i + 1, k);
    }
  }

  lemma NeverRevokedSnoc(lives: seq<seq<ClaimOp>>, ops: seq<ClaimOp>, k: Content)
    ensures NeverRevoked(lives + [ops], k) <==> NeverRevoked(lives, k) && Revoked(k) !in ops
  {
    if NeverRevoked(lives + [ops], k) {
      forall l | 0 <= l < |lives|
        ensures Revoked(k) !in lives[l]
      {
        assert (lives + [ops])[l] == lives[l];
      }
      assert (lives + [ops])[|lives|] == ops;
    }
  }

  lemma SavedInSnoc(start: set<Content>, lives: seq<seq<ClaimOp>>, ops: seq<ClaimOp>, l: int, i: int, k: Content)
    requires l < |lives|
    ensures SavedIn(start, lives + [ops], l, i, k) <==> SavedIn(start, lives, l, i, k) && Revoked(k) !in ops
  {
    if 0 <= l {
      assert (lives + [ops])[..l] == lives[..l];
      assert (lives + [ops])[l + 1..] == lives[l + 1..] + [ops];
      NeverRevokedSnoc(lives[l + 1..], ops, k);
    }
  }

  lemma SavedInLast(start: set<Content>, lives: seq<seq<ClaimOp>>, ops: seq<ClaimOp>, i: int, k: Content)
    ensures SavedIn(start, lives + [ops], |lives|, i, k) <==> SavedAt(OnDisk(start, lives), ops, i, k)
  {
    assert (lives + [ops])[..|lives|] == lives;
    assert (lives + [ops])[|lives| + 1..] == [];
  }

  lemma SavedOverSnoc(start: set<Content>, lives: seq<seq<ClaimOp>>, ops: seq<ClaimOp>, k: Content)
    ensures SavedOver(start, lives + [ops], k) <==>
            || (SavedOver(start, lives, k) && Revoked(k) !in ops)
            || exists i :: SavedAt(OnDisk(start, lives), ops, i, k)
  {
    NeverRevokedSnoc(lives, ops, k);
    if l, i :| SavedIn(start, lives + [ops], l, i, k) {
      if l < |lives| { SavedInSnoc(start, lives, ops, l, i, k); } else { SavedInLast(start, lives, ops, i, k); }
    }
    if l, i :| SavedIn(start, lives, l, i, k) {
      SavedInSnoc(start, lives, ops, l, i, k);
    }
    if i :| SavedAt(OnDisk(start, lives), ops, i, k) {
      SavedInLast(start, lives, ops, i, k);
    }
  }

  lemma {:induction false} OnDiskExactly(start: set<Content>, lives: seq<seq<ClaimOp>>, k: Content)
    ensures k in OnDisk(start, lives) <==> SavedOver(start, lives, k)
  {
    if lives != [] {
      var n := |lives| - 1;
      var before, ops := OnDisk(start, lives[..n]), lives[n];
      OnDiskExactly(start, lives[..n], k);
      SavedOverSnoc(start, lives[..n], ops, k);
      assert lives == lives[..n] + [ops];
      if Saved(before, before, ops, k) { SavedIsHeld(before, ops, k); }
    }
  }

  /** Which claims survive, over the whole life of a store with crashes at any writes and restarts: those
      there at the start and never revoked, and those that some create that got through, in whatever
      incarnation and of whatever claim, found to be the greatest in memory, and that no later revoke that
      got through removed. */
  lemma ClaimsThatSurvive(c: Crypto, dev: Dev, st: Store, lives: seq<Incarnation>, k: Content)
    ensures k in Survives(c, dev, st, lives).claims <==> SavedOver(st.claims.Keys, OpsOver(c, dev, st, lives), k)
  {
    DiskAfterLives(c, dev, st, lives);
    OnDiskExactly(st.claims.Keys, OpsOver(c, dev, st, lives), k);
  }
}
