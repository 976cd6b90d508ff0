/** The in-memory state against the store: what a clean restart brings back, and what crashes at any
    write can and cannot do to the calls that were executed (src/system.rs, src/balances.rs,
    src/proof_of_existence.rs, macros/src/runtime/expand.rs). */
module Durability {
  import opened Types
  import opened Storage
  import opened RuntimeSpec

  ghost predicate SubMap<K, V>(m: map<K, V>, n: map<K, V>) {
    forall k :: k in m ==> k in n && m[k] == n[k]
  }

  /** Height, nonces and balances are persisted exactly; the persisted claims are among those in memory. */
  ghost predicate Synced(st: Store, s: State) {
    && Load(st).height == s.height
    && st.nonces == s.nonces
    && st.balances == s.balances
    && SubMap(st.claims, s.claims)
  }

  lemma ReplayOne(st: Store, w: Write)
    ensures Replay(st, [w]) == Apply(st, w)
  {
    assert [w][..0] == [];
    assert Replay(st, [w][..0]) == st;
  }

  lemma ReplayTwo(st: Store, v: Write, w: Write)
    ensures Replay(st, [v, w]) == Apply(Apply(st, v), w)
  {
    ReplayOne(st, v);
    ReplayOne(Apply(st, v), w);
    ReplayConcat(st, [v], [w]);
    assert [v] + [w] == [v, w];
  }

  lemma NothingWritten(st: Store)
    ensures Replay(st, []) == st && After(st, []) == st
  {
    assert Writes([]) == [];
  }

  lemma TransferSynced(st: Store, s: State, caller: AccountId32, to: AccountId32, amount: U128)
    requires Synced(st, s)
    ensures var d := TransferEffect(s, caller, to, amount); Synced(Replay(st, d.writes), d.state)
  {
    var d := TransferEffect(s, caller, to, amount);
    if d.result.Ok? { ReplayTwo(st, d.writes[0], d.writes[1]); } else { NothingWritten(st); }
  }

  lemma CreateSynced(st: Store, s: State, caller: AccountId32, claim: Content)
    requires Synced(st, s)
    ensures var d := CreateEffect(s, caller, claim); Synced(Replay(st, d.writes), d.state)
  {
    if claim in s.claims {
      NothingWritten(st);
    } else {
      var claims := s.claims[claim := caller];
      assert claim in claims.Keys;
    }
  }

  lemma RevokeSynced(st: Store, s: State, caller: AccountId32, claim: Content)
    requires Synced(st, s)
    ensures var d := RevokeEffect(s, caller, claim); Synced(Replay(st, d.writes), d.state)
  {
    if claim in s.claims && s.claims[claim] == caller {
      ReplayOne(st, DeleteClaim(claim));
    } else {
      NothingWritten(st);
    }
  }

  lemma DispatchSynced(st: Store, s: State, caller: AccountId32, call: RuntimeCall)
    requires Synced(st, s)
    ensures Synced(Replay(st, Dispatch(s, caller, call).writes), Dispatch(s, caller, call).state)
  {
    match call
    case Balances(Transfer(to, amount)) => TransferSynced(st, s, caller, to, amount);
    case ProofOfExistence(CreateClaim(claim)) => CreateSynced(st, s, caller, claim);
    case ProofOfExistence(RevokeClaim(claim)) => RevokeSynced(st, s, caller, claim);
  }

  /** The log of an accepted extrinsic: the nonce first, then what the call writes. */
  lemma StepLog(s: State, e: Extrinsic, r: DispatchResult)
    ensures var x := Step(s, e, r);
            if x.log == [] then x.state == s
            else
              var bumped := s.(nonces := s.nonces[e.signer := e.nonce + 1]);
              && NonceOf(s.nonces, e.signer) == e.nonce < U32_MAX
              && x.log == [Entry(PutNonce(e.signer, e.nonce + 1), None)]
                          + Tagged(Dispatch(bumped, e.signer, e.call).writes, Some(CallId(e.signer, e.nonce)))
              && x.state == Dispatch(bumped, e.signer, e.call).state
              && x.end == Returned(Ok)
              && x.receipts == [Receipt(e, Applied(Dispatch(bumped, e.signer, e.call).result))]
  {}

  lemma AfterNonce(st: Store, a: AccountId32, n: U32, ws: seq<Write>, id: CallId)
    ensures After(st, [Entry(PutNonce(a, n), None)] + Tagged(ws, Some(id))) == Replay(Apply(st, PutNonce(a, n)), ws)
  {
    var first := [Entry(PutNonce(a, n), None)];
    AfterConcat(st, first, Tagged(ws, Some(id)));
    assert Writes(first) == [PutNonce(a, n)];
    ReplayOne(st, PutNonce(a, n));
    assert Writes(Tagged(ws, Some(id))) == ws;
  }

  lemma StepSynced(st: Store, s: State, e: Extrinsic, r: DispatchResult)
    requires Synced(st, s)
    ensures Synced(After(st, Step(s, e, r).log), Step(s, e, r).state)
  {
    StepLog(s, e, r);
    if Step(s, e, r).log == [] {
      assert Writes([]) == [];
    } else {
      var bumped := s.(nonces := s.nonces[e.signer := e.nonce + 1]);
      var put := PutNonce(e.signer, e.nonce + 1);
      DispatchSynced(Apply(st, put), bumped, e.signer, e.call);
      AfterNonce(st, e.signer, e.nonce + 1, Dispatch(bumped, e.signer, e.call).writes, CallId(e.signer, e.nonce));
    }
  }

  lemma {:induction false} LoopSynced(st: Store, s: State, es: seq<Extrinsic>, rs: seq<DispatchResult>)
    requires |es| == |rs| && Synced(st, s)
    ensures Synced(After(st, Loop(s, es, rs).log), Loop(s, es, rs).state)
  {
    if es == [] {
      assert Writes([]) == [];
    } else {
      var n := |es| - 1;
      LoopSynced(st, s, es[..n], rs[..n]);
      var x := Loop(s, es[..n], rs[..n]);
      if x.end.Returned? {
        StepSynced(After(st, x.log), x.state, es[n], rs[n]);
        AfterConcat(st, x.log, Step(x.state, es[n], rs[n]).log);
      }
    }
  }

  lemma AfterHeight(st: Store, h: U32)
    ensures After(st, [Entry(PutHeight(h), None)]) == st.(height := Some(h))
  {
    assert Writes([Entry(PutHeight(h), None)]) == [PutHeight(h)];
    ReplayOne(st, PutHeight(h));
  }

  lemma BlockSynced(c: Crypto, st: Store, s: State, b: Block)
    requires Synced(st, s)
    ensures Synced(After(st, ExecuteBlock(c, s, b).log), ExecuteBlock(c, s, b).state)
  {
    if s.height == U32_MAX {
      assert Writes([]) == [];
    } else {
      var t := s.(height := s.height + 1);
      var log := [Entry(PutHeight(t.height), None)];
      AfterHeight(st, t.height);
      if b.header.blockNumber == t.height {
        LoopSynced(After(st, log), t, b.extrinsics, VerifyBatch(c, b.extrinsics));
        AfterConcat(st, log, Loop(t, b.extrinsics, VerifyBatch(c, b.extrinsics)).log);
      }
    }
  }

  /** In every reachable state the store holds height, nonces and balances exactly and claims soundly. */
  lemma {:induction false} RunSynced(c: Crypto, st: Store, s: State, bs: seq<Block>)
    requires Synced(st, s)
    ensures Synced(After(st, Run(c, s, bs).log), Run(c, s, bs).state)
  {
    if bs == [] {
      assert Writes([]) == [];
    } else {
      var n := |bs| - 1;
      RunSynced(c, st, s, bs[..n]);
      var x := Run(c, s, bs[..n]);
      if x.end.Returned? {
        BlockSynced(c, After(st, x.log), x.state, bs[n]);
        AfterConcat(st, x.log, ExecuteBlock(c, x.state, bs[n]).log);
      }
    }
  }

  // ---- restart simulation ------------------------------------------------------------------------

  /** Equal in everything but the claims. */
  ghost predicate SameLedger(s: State, t: State) {
    s.height == t.height && s.nonces == t.nonces && s.balances == t.balances
  }

  lemma TransferSame(s: State, t: State, caller: AccountId32, to: AccountId32, amount: U128)
    requires SameLedger(s, t)
    ensures SameLedger(TransferEffect(s, caller, to, amount).state, TransferEffect(t, caller, to, amount).state)
  {}

  lemma ClaimsApart(s: State, caller: AccountId32, claim: Content)
    ensures SameLedger(CreateEffect(s, caller, claim).state, s)
    ensures SameLedger(RevokeEffect(s, caller, claim).state, s)
  {}

  lemma DispatchSame(s: State, t: State, caller: AccountId32, call: RuntimeCall)
    requires SameLedger(s, t)
    ensures SameLedger(Dispatch(s, caller, call).state, Dispatch(t, caller, call).state)
  {
    match call
    case Balances(Transfer(to, amount)) => TransferSame(s, t, caller, to, amount);
    case ProofOfExistence(poe) =>
      ClaimsApart(s, caller, poe.claim);
      ClaimsApart(t, caller, poe.claim);
  }

  lemma StepSame(s: State, t: State, e: Extrinsic, r: DispatchResult)
    requires SameLedger(s, t)
    ensures SameLedger(Step(s, e, r).state, Step(t, e, r).state) && Step(s, e, r).end == Step(t, e, r).end
  {
    if r.Ok? && NonceOf(s.nonces, e.signer) == e.nonce < U32_MAX {
      var u, v := s.(nonces := s.nonces[e.signer := e.nonce + 1]), t.(nonces := t.nonces[e.signer := e.nonce + 1]);
      DispatchSame(u, v, e.signer, e.call);
      assert Step(s, e, r).state == Dispatch(u, e.signer, e.call).state;
      assert Step(t, e, r).state == Dispatch(v, e.signer, e.call).state;
    }
  }

  lemma {:induction false} LoopSame(s: State, t: State, es: seq<Extrinsic>, rs: seq<DispatchResult>)
    requires |es| == |rs| && SameLedger(s, t)
    ensures SameLedger(Loop(s, es, rs).state, Loop(t, es, rs).state) && Loop(s, es, rs).end == Loop(t, es, rs).end
  {
    if es != [] {
      var n := |es| - 1;
      LoopSame(s, t, es[..n], rs[..n]);
      var x, y := Loop(s, es[..n], rs[..n]), Loop(t, es[..n], rs[..n]);
      if x.end.Returned? { StepSame(x.state, y.state, es[n], rs[n]); }
    }
  }

  lemma BlockSame(c: Crypto, s: State, t: State, b: Block)
    requires SameLedger(s, t)
    ensures SameLedger(ExecuteBlock(c, s, b).state, ExecuteBlock(c, t, b).state)
    ensures ExecuteBlock(c, s, b).end == ExecuteBlock(c, t, b).end
  {
    if s.height < U32_MAX && b.header.blockNumber == s.height + 1 {
      var u, v, rs := s.(height := s.height + 1), t.(height := t.height + 1), VerifyBatch(c, b.extrinsics);
      LoopSame(u, v, b.extrinsics, rs);
      BlockIsLoop(c, s, b);
      BlockIsLoop(c, t, b);
    }
  }

  lemma {:induction false} RunSame(c: Crypto, s: State, t: State, bs: seq<Block>)
    requires SameLedger(s, t)
    ensures SameLedger(Run(c, s, bs).state, Run(c, t, bs).state)
    ensures Run(c, s, bs).end.Panicked? == Run(c, t, bs).end.Panicked?
  {
    if bs != [] {
      var n := |bs| - 1;
      RunSame(c, s, t, bs[..n]);
      if Run(c, s, bs[..n]).end.Returned? {
        BlockSame(c, Run(c, s, bs[..n]).state, Run(c, t, bs[..n]).state, bs[n]);
      }
    }
  }

  lemma {:induction false} RunConcat(c: Crypto, s: State, a: seq<Block>, b: seq<Block>)
    requires Run(c, s, a).end.Returned?
    ensures Run(c, s, a + b).state == Run(c, Run(c, s, a).state, b).state
    ensures Run(c, s, a + b).end.Panicked? == Run(c, Run(c, s, a).state, b).end.Panicked?
  {
    if b == [] {
      assert a + b == a;
    } else {
      RunConcat(c, s, a, b[..|b| - 1]);
      assert (a + b)[..|a + b| - 1] == a + b[..|b| - 1];
      assert (a + b)[|a + b| - 1] == b[|b| - 1];
    }
  }

  lemma {:induction false} PrefixReturns(c: Crypto, s: State, a: seq<Block>, b: seq<Block>)
    requires Run(c, s, a + b).end.Returned?
    ensures Run(c, s, a).end.Returned?
    decreases |b|
  {
    if b == [] {
      assert a + b == a;
    } else {
      assert (a + b)[..|a + b| - 1] == a + b[..|b| - 1];
      PrefixReturns(c, s, a, b[..|b| - 1]);
    }
  }

  function Flatten(groups: seq<seq<Block>>): seq<Block> {
    if groups == [] then [] else Flatten(groups[..|groups| - 1]) + groups[|groups| - 1]
  }

  /** The store after groups of blocks with a clean restart through `Runtime::new` before each group. */
  ghost function Restarted(c: Crypto, st: Store, groups: seq<seq<Block>>): Store {
    if groups == [] then st
    else
      var mid := Restarted(c, st, groups[..|groups| - 1]);
      After(mid, Run(c, Load(mid), groups[|groups| - 1]).log)
  }

  /** Wherever clean restarts are placed, height, nonces and balances end as in the run without them. */
  lemma {:induction false} RestartSimulates(c: Crypto, st: Store, groups: seq<seq<Block>>)
    requires Run(c, Load(st), Flatten(groups)).end.Returned?
    ensures SameLedger(Load(Restarted(c, st, groups)), Run(c, Load(st), Flatten(groups)).state)
  {
    if groups != [] {
      var n := |groups| - 1;
      var before := Flatten(groups[..n]);
      PrefixReturns(c, Load(st), before, groups[n]);
      RestartSimulates(c, st, groups[..n]);
      var mid := Restarted(c, st, groups[..n]);
      RunConcat(c, Load(st), before, groups[n]);
      RunSame(c, Load(mid), Run(c, Load(st), before).state, groups[n]);
      RunSynced(c, mid, Load(mid), groups[n]);
    }
  }

  // ---- at most once across crashes ---------------------------------------------------------------

  /** The whole life of a store: the writes that reached it and the restarts in between. */
  datatype Event = Wrote(entry: Entry) | Booted

  function Events(log: seq<Entry>): (es: seq<Event>)
    ensures |es| == |log|
  {
    seq(|log|, i requires 0 <= i < |log| => Wrote(log[i]))
  }

  ghost function History(c: Crypto, dev: Dev, st: Store, lives: seq<Incarnation>): seq<Event> {
    if lives == [] then []
    else
      var mid := Survives(c, dev, st, lives[..|lives| - 1]);
      History(c, dev, st, lives[..|lives| - 1]) + [Booted] + Events(Durable(c, dev, mid, lives[|lives| - 1]))
  }

  predicate EffectOf(ev: Event, id: CallId) { ev.Wrote? && ev.entry.origin == Some(id) }

  /** Reads a history from left to right: nonces only ever go up by one, and a call writes only while its
      own nonce write is the latest thing that happened besides its own effects. */
  datatype Cursor = Cursor(nonces: map<AccountId32, U32>, current: Option<CallId>)

  function Advance(k: Cursor, ev: Event): Option<Cursor> {
    match ev
    case Booted => Some(k.(current := None))
    case Wrote(Entry(PutNonce(a, n), None)) =>
      if n == NonceOf(k.nonces, a) + 1 then Some(Cursor(k.nonces[a := n], Some(CallId(a, n - 1)))) else None
    case Wrote(Entry(w, None)) => Some(k.(current := None))
    case Wrote(Entry(w, Some(id))) => if k.current == Some(id) && !w.PutNonce? then Some(k) else None
  }

  function Scan(k: Cursor, h: seq<Event>): Option<Cursor> {
    if h == [] then Some(k)
    else
      match Scan(k, h[..|h| - 1])
      case None => None
      case Some(j) => Advance(j, h[|h| - 1])
  }

  lemma {:induction false} ScanConcat(k: Cursor, g: seq<Event>, h: seq<Event>)
    ensures Scan(k, g + h) == if Scan(k, g).None? then None else Scan(Scan(k, g).value, h)
  {
    if h == [] {
      assert g + h == g;
    } else {
      ScanConcat(k, g, h[..|h| - 1]);
      assert (g + h)[..|g + h| - 1] == g + h[..|h| - 1];
    }
  }

  /** The cursor's nonces are those of the store. */
  lemma {:induction false} ScanTracks(k: Cursor, st: Store, log: seq<Entry>)
    requires k.nonces == st.nonces && Scan(k, Events(log)).Some?
    ensures Scan(k, Events(log)).value.nonces == After(st, log).nonces
  {
    if log == [] {
      assert Writes(log) == [];
    } else {
      var n := |log| - 1;
      assert Events(log)[..n] == Events(log[..n]);
      ScanTracks(k, st, log[..n]);
      assert Writes(log)[..n] == Writes(log[..n]);
    }
  }

  /** The cursor accepts the log and ends at the nonces `after`. */
  ghost predicate Orderly(k: Cursor, log: seq<Entry>, after: map<AccountId32, U32>) {
    Scan(k, Events(log)).Some? && Scan(k, Events(log)).value.nonces == after
  }

  lemma OrderlyConcat(k: Cursor, x: seq<Entry>, y: seq<Entry>, after: map<AccountId32, U32>)
    requires Scan(k, Events(x)).Some? && Orderly(Scan(k, Events(x)).value, y, after)
    ensures Orderly(k, x + y, after)
  {
    assert Events(x + y) == Events(x) + Events(y);
    ScanConcat(k, Events(x), Events(y));
  }

  lemma OrderlyNothing(k: Cursor)
    ensures Orderly(k, [], k.nonces)
  {
    assert Events([]) == [];
  }

  lemma {:induction false} ScanEffects(k: Cursor, ws: seq<Write>, id: CallId)
    requires k.current == Some(id) && forall i :: 0 <= i < |ws| ==> !ws[i].PutNonce?
    ensures Scan(k, Events(Tagged(ws, Some(id)))) == Some(k)
  {
    if ws != [] {
      var n := |ws| - 1;
      ScanEffects(k, ws[..n], id);
      assert Events(Tagged(ws, Some(id)))[..n] == Events(Tagged(ws[..n], Some(id)));
    }
  }

  lemma ClaimCallsWriteNoNonce(s: State, caller: AccountId32, claim: Content)
    ensures var d := CreateEffect(s, caller, claim);
            (forall i :: 0 <= i < |d.writes| ==> !d.writes[i].PutNonce?) && d.state.nonces == s.nonces
    ensures var d := RevokeEffect(s, caller, claim);
            (forall i :: 0 <= i < |d.writes| ==> !d.writes[i].PutNonce?) && d.state.nonces == s.nonces
  {}

  lemma TransferWritesNoNonce(s: State, caller: AccountId32, to: AccountId32, amount: U128)
    ensures var d := TransferEffect(s, caller, to, amount);
            (forall i :: 0 <= i < |d.writes| ==> !d.writes[i].PutNonce?) && d.state.nonces == s.nonces
  {}

  lemma DispatchWritesNoNonce(s: State, caller: AccountId32, call: RuntimeCall)
    ensures forall i :: 0 <= i < |Dispatch(s, caller, call).writes| ==> !Dispatch(s, caller, call).writes[i].PutNonce?
    ensures Dispatch(s, caller, call).state.nonces == s.nonces
  {
    match call
    case Balances(Transfer(to, amount)) => TransferWritesNoNonce(s, caller, to, amount);
    case ProofOfExistence(poe) => ClaimCallsWriteNoNonce(s, caller, poe.claim);
  }

  lemma NonceThenEffects(k: Cursor, a: AccountId32, n: U32, ws: seq<Write>)
    requires n < U32_MAX && NonceOf(k.nonces, a) == n
    requires forall i :: 0 <= i < |ws| ==> !ws[i].PutNonce?
    ensures Orderly(k, [Entry(PutNonce(a, n + 1), None)] + Tagged(ws, Some(CallId(a, n))), k.nonces[a := n + 1])
  {
    var put := Entry(PutNonce(a, n + 1), None);
    assert Events([put]) == [Wrote(put)];
    ScanEffects(Cursor(k.nonces[a := n + 1], Some(CallId(a, n))), ws, CallId(a, n));
    OrderlyConcat(k, [put], Tagged(ws, Some(CallId(a, n))), k.nonces[a := n + 1]);
  }

  lemma StepOrderly(k: Cursor, s: State, e: Extrinsic, r: DispatchResult)
    requires k.nonces == s.nonces
    ensures Orderly(k, Step(s, e, r).log, Step(s, e, r).state.nonces)
  {
    StepLog(s, e, r);
    OrderlyNothing(k);
    if Step(s, e, r).log != [] {
      var bumped := s.(nonces := s.nonces[e.signer := e.nonce + 1]);
      DispatchWritesNoNonce(bumped, e.signer, e.call);
      NonceThenEffects(k, e.signer, e.nonce, Dispatch(bumped, e.signer, e.call).writes);
    }
  }

  lemma {:induction false} LoopOrderly(k: Cursor, s: State, es: seq<Extrinsic>, rs: seq<DispatchResult>)
    requires |es| == |rs| && k.nonces == s.nonces
    ensures Orderly(k, Loop(s, es, rs).log, Loop(s, es, rs).state.nonces)
  {
    OrderlyNothing(k);
    if es != [] {
      var n := |es| - 1;
      LoopOrderly(k, s, es[..n], rs[..n]);
      var x := Loop(s, es[..n], rs[..n]);
      if x.end.Returned? {
        StepOrderly(Scan(k, Events(x.log)).value, x.state, es[n], rs[n]);
        OrderlyConcat(k, x.log, Step(x.state, es[n], rs[n]).log, Step(x.state, es[n], rs[n]).state.nonces);
      }
    }
  }

  lemma {:induction false} UntaggedOrderly(k: Cursor, ws: seq<Write>)
    requires forall i :: 0 <= i < |ws| ==> !ws[i].PutNonce?
    ensures Orderly(k, Tagged(ws, None), k.nonces)
  {
    if ws == [] {
      assert Tagged(ws, None) == [];
      OrderlyNothing(k);
    } else {
      var n := |ws| - 1;
      UntaggedOrderly(k, ws[..n]);
      assert Events(Tagged(ws, None))[..n] == Events(Tagged(ws[..n], None));
    }
  }

  lemma BlockOrderly(k: Cursor, c: Crypto, s: State, b: Block)
    requires k.nonces == s.nonces
    ensures Orderly(k, ExecuteBlock(c, s, b).log, ExecuteBlock(c, s, b).state.nonces)
  {
    OrderlyNothing(k);
    if s.height < U32_MAX {
      var t := s.(height := s.height + 1);
      var log := [Entry(PutHeight(t.height), None)];
      UntaggedOrderly(k, [PutHeight(t.height)]);
      assert log == Tagged([PutHeight(t.height)], None);
      if b.header.blockNumber == t.height {
        var x := Loop(t, b.extrinsics, VerifyBatch(c, b.extrinsics));
        LoopOrderly(Scan(k, Events(log)).value, t, b.extrinsics, VerifyBatch(c, b.extrinsics));
        OrderlyConcat(k, log, x.log, x.state.nonces);
      }
    }
  }

  lemma {:induction false} RunOrderly(k: Cursor, c: Crypto, s: State, bs: seq<Block>)
    requires k.nonces == s.nonces
    ensures Orderly(k, Run(c, s, bs).log, Run(c, s, bs).state.nonces)
  {
    OrderlyNothing(k);
    if bs != [] {
      var n := |bs| - 1;
      RunOrderly(k, c, s, bs[..n]);
      var x := Run(c, s, bs[..n]);
      if x.end.Returned? {
        var y := ExecuteBlock(c, x.state, bs[n]);
        BlockOrderly(Scan(k, Events(x.log)).value, c, x.state, bs[n]);
        OrderlyConcat(k, x.log, y.log, y.state.nonces);
      }
    }
  }

  lemma GenesisOrderly(k: Cursor, c: Crypto, dev: Dev, s: State)
    requires k.nonces == s.nonces
    ensures Orderly(k, Genesis(c, dev, s).log, Genesis(c, dev, s).state.nonces)
  {
    OrderlyNothing(k);
    if s.height == 0 {
      var puts, funded := Endowments(dev), s.(balances := Endow(s.balances, dev));
      var x := ExecuteBlock(c, funded, Block(Header(1), []));
      UntaggedOrderly(k, puts);
      BlockOrderly(Scan(k, Events(Tagged(puts, None))).value, c, funded, Block(Header(1), []));
      OrderlyConcat(k, Tagged(puts, None), x.log, x.state.nonces);
    }
  }

  lemma ProcessOrderly(k: Cursor, c: Crypto, dev: Dev, st: Store, bs: seq<Block>)
    requires k.nonces == st.nonces
    ensures Orderly(k, Process(c, dev, st, bs).log, Process(c, dev, st, bs).state.nonces)
  {
    var g := Genesis(c, dev, Load(st));
    GenesisOrderly(k, c, dev, Load(st));
    if g.end.Returned? {
      RunOrderly(Scan(k, Events(g.log)).value, c, g.state, bs);
      OrderlyConcat(k, g.log, Run(c, g.state, bs).log, Run(c, g.state, bs).state.nonces);
    }
  }

  /** One more incarnation: the boot, then whatever prefix of its writes survives. */
  lemma BootedOrderly(j: Cursor, c: Crypto, dev: Dev, mid: Store, i: Incarnation)
    requires j == Cursor(mid.nonces, None)
    ensures Orderly(j, Durable(c, dev, mid, i), After(mid, Durable(c, dev, mid, i)).nonces)
  {
    var log := Process(c, dev, mid, i.blocks).log;
    var kept := Durable(c, dev, mid, i);
    ProcessOrderly(j, c, dev, mid, i.blocks);
    assert Events(log) == Events(kept) + Events(log[|kept|..]);
    ScanConcat(j, Events(kept), Events(log[|kept|..]));
    ScanTracks(j, mid, kept);
  }

  /** Every history of crashes and restarts is one the cursor accepts. */
  lemma {:induction false} HistoryOrderly(c: Crypto, dev: Dev, st: Store, lives: seq<Incarnation>)
    ensures var r := Scan(Cursor(st.nonces, None), History(c, dev, st, lives));
            r.Some? && r.value.nonces == Survives(c, dev, st, lives).nonces
  {
    if lives != [] {
      var n := |lives| - 1;
      HistoryOrderly(c, dev, st, lives[..n]);
      var mid := Survives(c, dev, st, lives[..n]);
      var past := History(c, dev, st, lives[..n]);
      var k := Cursor(st.nonces, None);
      ScanConcat(k, past, [Booted]);
      BootedOrderly(Cursor(mid.nonces, None), c, dev, mid, lives[n]);
      ScanConcat(k, past + [Booted], Events(Durable(c, dev, mid, lives[n])));
    }
  }

  /** The write that takes the signer of `id` past its nonce. */
  predicate NonceWriteOf(ev: Event, id: CallId) {
    && ev.Wrote? && ev.entry.origin.None? && ev.entry.write.PutNonce?
    && ev.entry.write.who == id.signer && ev.entry.write.nonce == id.nonce + 1
  }

  /** Between positions p and q nothing happens but effects of `id`. */
  ghost predicate OnlyEffects(h: seq<Event>, p: int, q: int, id: CallId) {
    forall r :: p <= r < q && 0 <= r < |h| ==> EffectOf(h[r], id)
  }

  ghost predicate Announced(h: seq<Event>, q: int, id: CallId) {
    exists r :: 0 <= r < q && r < |h| && NonceWriteOf(h[r], id) && OnlyEffects(h, r + 1, q, id)
  }

  /** What the cursor knows of the history it has read. */
  ghost predicate Spent(h: seq<Event>, nonces: map<AccountId32, U32>) {
    forall p, id :: 0 <= p < |h| && EffectOf(h[p], id) ==> id.nonce < NonceOf(nonces, id.signer)
  }

  ghost predicate Remembered(h: seq<Event>, k: Cursor) {
    && Spent(h, k.nonces)
    && (k.current.Some? ==>
          var id := k.current.value;
          && NonceOf(k.nonces, id.signer) == id.nonce + 1
          && Announced(h, |h|, id)
          && (forall p :: 0 <= p < |h| && EffectOf(h[p], id) ==> OnlyEffects(h, p, |h|, id)))
  }

  lemma {:induction false} ScanRemembers(k: Cursor, h: seq<Event>)
    requires k.current.None? && Scan(k, h).Some?
    ensures Remembered(h, Scan(k, h).value)
  {
    if h != [] {
      var n := |h| - 1;
      ScanRemembers(k, h[..n]);
      var j := Scan(k, h[..n]).value;
      assert h == h[..n] + [h[n]];
      var ev := h[n];
      if ev.Booted? || (ev.entry.origin.None? && !ev.entry.write.PutNonce?) {
      } else if ev.entry.origin.None? {
        RemembersNonce(h[..n], j, ev.entry.write.who, ev.entry.write.nonce);
      } else {
        RemembersEffect(h[..n], j, ev.entry.write, ev.entry.origin.value);
      }
    }
  }

  lemma SpentOneMore(h: seq<Event>, m: map<AccountId32, U32>, ev: Event, n: map<AccountId32, U32>)
    requires Spent(h, m) && forall a :: NonceOf(m, a) <= NonceOf(n, a)
    requires forall id :: EffectOf(ev, id) ==> id.nonce < NonceOf(n, id.signer)
    ensures Spent(h + [ev], n)
  {
    forall p, id | 0 <= p < |h + [ev]| && EffectOf((h + [ev])[p], id)
      ensures id.nonce < NonceOf(n, id.signer)
    {
      if p < |h| { assert EffectOf(h[p], id); }
    }
  }

  lemma RemembersNonce(h: seq<Event>, j: Cursor, a: AccountId32, m: U32)
    requires Remembered(h, j) && m == NonceOf(j.nonces, a) + 1
    ensures Remembered(h + [Wrote(Entry(PutNonce(a, m), None))], Cursor(j.nonces[a := m], Some(CallId(a, m - 1))))
  {
    var id := CallId(a, m - 1);
    var ev := Wrote(Entry(PutNonce(a, m), None));
    var g := h + [ev];
    SpentOneMore(h, j.nonces, ev, j.nonces[a := m]);
    assert g[|h|] == ev && NonceWriteOf(g[|h|], id) && OnlyEffects(g, |h| + 1, |g|, id);
    forall p | 0 <= p < |g|
      ensures !EffectOf(g[p], id)
    {
      if p < |h| && EffectOf(h[p], id) { assert false; }
    }
  }

  lemma RemembersEffect(h: seq<Event>, j: Cursor, w: Write, id: CallId)
    requires Remembered(h, j) && j.current == Some(id)
    ensures Remembered(h + [Wrote(Entry(w, Some(id)))], j)
  {
    var ev := Wrote(Entry(w, Some(id)));
    var g := h + [ev];
    SpentOneMore(h, j.nonces, ev, j.nonces);
    var r :| 0 <= r < |h| && NonceWriteOf(h[r], id) && OnlyEffects(h, r + 1, |h|, id);
    assert g[r] == h[r] && OnlyEffects(g, r + 1, |g|, id);
    forall p | 0 <= p < |g| && EffectOf(g[p], id)
      ensures OnlyEffects(g, p, |g|, id)
    {
      if p < |h| { assert EffectOf(h[p], id) && OnlyEffects(h, p, |h|, id); }
    }
  }

  /** An effect found at q: the cursor was at its call, and the history up to q is remembered. */
  lemma CursorAt(k: Cursor, h: seq<Event>, q: nat, id: CallId)
    requires k.current.None? && Scan(k, h).Some?
    requires q < |h| && EffectOf(h[q], id)
    ensures Scan(k, h[..q]).Some? && Scan(k, h[..q]).value.current == Some(id)
    ensures Remembered(h[..q], Scan(k, h[..q]).value)
  {
    assert h == h[..q + 1] + h[q + 1..];
    ScanConcat(k, h[..q + 1], h[q + 1..]);
    assert h[..q + 1][..q] == h[..q];
    ScanRemembers(k, h[..q]);
  }

  /** At most once: in any life of a store, whatever blocks are executed and wherever crashes cut the
      writes, all effects of one (signer, nonce) form a single uninterrupted stretch. No other write and
      no restart lies between two of them, so no second incarnation ever writes effects of that call. */
  lemma AtMostOnce(c: Crypto, dev: Dev, st: Store, lives: seq<Incarnation>, p: nat, q: nat, id: CallId)
    requires p < q < |History(c, dev, st, lives)|
    requires EffectOf(History(c, dev, st, lives)[p], id) && EffectOf(History(c, dev, st, lives)[q], id)
    ensures OnlyEffects(History(c, dev, st, lives), p, q, id)
  {
    var h := History(c, dev, st, lives);
    HistoryOrderly(c, dev, st, lives);
    CursorAt(Cursor(st.nonces, None), h, q, id);
    assert EffectOf(h[..q][p], id) && OnlyEffects(h[..q], p, q, id);
    forall r | p <= r < q
      ensures EffectOf(h[r], id)
    {
      assert h[r] == h[..q][r];
    }
  }

  /** No effect without its nonce: the write that takes the signer past the nonce comes first, in the same
      incarnation, with nothing but effects of the same call in between. */
  lemma NonceBeforeEffects(c: Crypto, dev: Dev, st: Store, lives: seq<Incarnation>, q: nat, id: CallId)
    requires q < |History(c, dev, st, lives)| && EffectOf(History(c, dev, st, lives)[q], id)
    ensures Announced(History(c, dev, st, lives), q, id)
  {
    var h := History(c, dev, st, lives);
    HistoryOrderly(c, dev, st, lives);
    CursorAt(Cursor(st.nonces, None), h, q, id);
    AnnouncedLonger(h, q, id);
  }

  lemma AnnouncedLonger(h: seq<Event>, q: nat, id: CallId)
    requires q <= |h| && Announced(h[..q], q, id)
    ensures Announced(h, q, id)
  {
    var r :| 0 <= r < q && NonceWriteOf(h[..q][r], id) && OnlyEffects(h[..q], r + 1, q, id);
    forall i | r + 1 <= i < q
      ensures EffectOf(h[i], id)
    {
      assert h[i] == h[..q][i];
    }
    assert h[r] == h[..q][r] && OnlyEffects(h, r + 1, q, id);
  }
}
