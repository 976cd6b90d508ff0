/** What of the claims reaches the store: `create_claim` persists the greatest claim in memory, not the
    one it was given (src/proof_of_existence.rs). */
module Claims {
  import opened Types
  import opened Storage
  import opened RuntimeSpec
  import opened Durability

  /** The claim sorts after every claim already held. */
  ghost predicate Tops(claim: Content, claims: map<Content, AccountId32>) {
    forall k :: k in claims ==> Below(k, claim)
  }

  /** A successful create always leaves the greatest claim persisted with its owner; it persists the new
      claim itself if and only if that claim sorts after every claim held before. */
  lemma CreatePersists(st: Store, s: State, caller: AccountId32, claim: Content)
    requires Synced(st, s) && claim !in s.claims
    ensures var d := CreateEffect(s, caller, claim);
            var after := Replay(st, d.writes);
            var last := Greatest(s.claims.Keys + {claim});
            && d.result == Ok && d.state == s.(claims := s.claims[claim := caller])
            && last in after.claims && after.claims[last] == d.state.claims[last]
            && (claim in after.claims <==> Tops(claim, s.claims))
            && (after.claims == d.state.claims <==>
                st.claims[claim := caller] == d.state.claims && Tops(claim, s.claims))
  {
    var d := CreateEffect(s, caller, claim);
    var claims := s.claims[claim := caller];
    assert claims.Keys == s.claims.Keys + {claim};
    ReplayOne(st, d.writes[0]);
    var last := Greatest(claims.Keys);
    if Tops(claim, s.claims) {
      assert IsGreatest(claim, claims.Keys);
      GreatestUnique(claim, last, claims.Keys);
    } else {
      var k :| k in s.claims && !Below(k, claim);
      assert k in claims.Keys;
      if last == claim {
        LexTotal(k.utf8, claim.utf8);
        assert false;
      }
      assert claim !in st.claims;
    }
  }

  /** A claim that is held cannot be made again, whoever asks. */
  lemma NoSecondCreate(s: State, caller: AccountId32, claim: Content)
    ensures CreateEffect(s, caller, claim).result == Ok <==> claim !in s.claims
    ensures claim in s.claims ==>
              CreateEffect(s, caller, claim) == Effect(s, [], Err("this content is already claimed"))
  {}

  /** A revoked claim is gone from memory and store alike, and only its owner can revoke it. */
  lemma RevokeExactly(st: Store, s: State, caller: AccountId32, claim: Content)
    requires Synced(st, s)
    ensures var d := RevokeEffect(s, caller, claim);
            var after := Replay(st, d.writes);
            && (d.result == Ok <==> claim in s.claims && s.claims[claim] == caller)
            && (claim !in s.claims ==> d.result == Err("claim does not exist"))
            && (claim in s.claims && s.claims[claim] != caller ==> d.result == Err("caller is not owner"))
            && (d.result == Ok ==> claim !in d.state.claims && claim !in after.claims)
            && (forall k :: k != claim ==>
                  (k in d.state.claims <==> k in s.claims) && (k in after.claims <==> k in st.claims))
  {
    var d := RevokeEffect(s, caller, claim);
    if d.result == Ok {
      ReplayOne(st, d.writes[0]);
    } else {
      assert Replay(st, []) == st;
    }
  }

  /** Of two claims, the one that is persisted, whichever was there first, is the one that the other is a proper
      prefix of, or that has the greater byte where they first differ. */
  lemma GreaterIsPersisted(s: State, owner: AccountId32, caller: AccountId32, x: Content, y: Content, i: int)
    requires PartsAt(x.utf8, y.utf8, i)
    ensures CreateEffect(s.(claims := map[x := owner]), caller, y).writes == [PutClaim(y, caller)]
    ensures CreateEffect(s.(claims := map[y := owner]), caller, x).writes == [PutClaim(y, owner)]
  {
    LexLessExactly(x.utf8, y.utf8);
    LexTotal(x.utf8, y.utf8);
    assert IsGreatest(y, {x, y});
    PersistsGreatest(s.(claims := map[x := owner]), caller, y, y);
    PersistsGreatest(s.(claims := map[y := owner]), caller, x, y);
  }

  lemma PersistsGreatest(s: State, caller: AccountId32, claim: Content, last: Content)
    requires claim !in s.claims && IsGreatest(last, s.claims.Keys + {claim})
    ensures CreateEffect(s, caller, claim).writes == [PutClaim(last, s.claims[claim := caller][last])]
  {
    assert s.claims[claim := caller].Keys == s.claims.Keys + {claim};
    GreatestUnique(last, Greatest(s.claims.Keys + {claim}), s.claims.Keys + {claim});
  }

  /** The property a restart would need is false: with "b" claimed and persisted, claiming "a" is lost. */
  lemma SmallerClaimIsLost(owner: AccountId32)
    ensures var a, b := Letter(97), Letter(98);
            var s := State(1, map[], map[], map[b := owner]);
            var st := Store(Some(1), map[], map[], map[b := owner]);
            var d := CreateEffect(s, owner, a);
            && Load(st) == s && d.result == Ok && d.state.claims == map[b := owner, a := owner]
            && Load(Replay(st, d.writes)).claims == map[b := owner]
  {
    var a, b := Letter(97), Letter(98);
    assert PartsAt(a.utf8, b.utf8, 0);
    var s := State(1, map[], map[], map[b := owner]);
    GreaterIsPersisted(s, owner, owner, a, b, 0);
    assert s.(claims := map[b := owner]) == s;
    ReplayOne(Store(Some(1), map[], map[], map[b := owner]), PutClaim(b, owner));
  }

  // ---- which claims a run saves ------------------------------------------------------------------

  /** A claim call that succeeded. */
  datatype ClaimOp = Created(claim: Content) | Revoked(claim: Content)

  /** What a call with this result is to the claims. */
  function CallOp(call: RuntimeCall, result: DispatchResult): seq<ClaimOp> {
    if result != Ok || !call.ProofOfExistence? then []
    else if call.poe.CreateClaim? then [Created(call.poe.claim)]
    else [Revoked(call.poe.claim)]
  }

  function OpOf(r: Receipt): seq<ClaimOp> {
    if r.status.Applied? then CallOp(r.ext.call, r.status.result) else []
  }

  /** The successful claim calls of a run, in order. */
  function Ops(rs: seq<Receipt>): seq<ClaimOp> {
    if rs == [] then [] else Ops(rs[..|rs| - 1]) + OpOf(rs[|rs| - 1])
  }

  lemma {:induction false} OpsConcat(a: seq<Receipt>, b: seq<Receipt>)
    ensures Ops(a + b) == Ops(a) + Ops(b)
  {
    if b == [] {
      assert a + b == a;
    } else {
      var init, r := b[..|b| - 1], b[|b| - 1];
      OpsConcat(a, init);
      Assoc(a, init, [r]);
      assert b == init + [r];
      Assoc(Ops(a), Ops(init), OpOf(r));
    }
  }

  /** The claims held after these calls. */
  function Held(start: set<Content>, ops: seq<ClaimOp>): set<Content> {
    if ops == [] then start
    else
      var before, op := Held(start, ops[..|ops| - 1]), ops[|ops| - 1];
      if op.Created? then before + {op.claim} else before - {op.claim}
  }

  lemma HeldSnoc(start: set<Content>, ops: seq<ClaimOp>, op: ClaimOp)
    ensures Held(start, ops + [op]) ==
            if op.Created? then Held(start, ops) + {op.claim} else Held(start, ops) - {op.claim}
  {
    assert (ops + [op])[..|ops|] == ops;
  }

  /** The create at position `i`, of whatever claim, found `k` to be the greatest claim held, and `k` was not
      revoked after it. */
  ghost predicate SavedAt(start: set<Content>, ops: seq<ClaimOp>, i: int, k: Content) {
    && 0 <= i < |ops| && ops[i].Created?
    && IsGreatest(k, Held(start, ops[..i + 1]))
    && Revoked(k) !in ops[i + 1..]
  }

  /** `k` was stored to begin with and never revoked, or some create saved it. */
  ghost predicate Saved(start: set<Content>, stored: set<Content>, ops: seq<ClaimOp>, k: Content) {
    (k in stored && Revoked(k) !in ops) || exists i :: SavedAt(start, ops, i, k)
  }

  lemma SavedAtSnoc(start: set<Content>, ops: seq<ClaimOp>, op: ClaimOp, i: int, k: Content)
    requires i < |ops|
    ensures SavedAt(start, ops + [op], i, k) <==> SavedAt(start, ops, i, k) && op != Revoked(k)
  {
    if 0 <= i {
      assert (ops + [op])[..i + 1] == ops[..i + 1];
      assert (ops + [op])[i + 1..] == ops[i + 1..] + [op];
    }
  }

  lemma SavedAtLast(start: set<Content>, ops: seq<ClaimOp>, op: ClaimOp, k: Content)
    ensures SavedAt(start, ops + [op], |ops|, k) <==> op.Created? && IsGreatest(k, Held(start, ops) + {op.claim})
  {
    assert (ops + [op])[..|ops| + 1] == ops + [op];
    HeldSnoc(start, ops, op);
  }

  lemma SavedSnoc(start: set<Content>, stored: set<Content>, ops: seq<ClaimOp>, op: ClaimOp, k: Content)
    ensures Saved(start, stored, ops + [op], k) <==>
            || (op != Revoked(k) && Saved(start, stored, ops, k))
            || (op.Created? && IsGreatest(k, Held(start, ops) + {op.claim}))
  {
    SavedAtLast(start, ops, op, k);
    if i :| SavedAt(start, ops + [op], i, k) {
      if i < |ops| { SavedAtSnoc(start, ops, op, i, k); }
    }
    if i :| SavedAt(start, ops, i, k) {
      SavedAtSnoc(start, ops, op, i, k);
    }
  }

  /** Memory holds, and the store has, what the calls so far say. */
  ghost predicate Tracks(start: set<Content>, stored: set<Content>, ops: seq<ClaimOp>, st: Store, s: State) {
    && s.claims.Keys == Held(start, ops)
    && forall k :: k in st.claims <==> Saved(start, stored, ops, k)
  }

  lemma TracksCreate(start: set<Content>, stored: set<Content>, ops: seq<ClaimOp>, st: Store, s: State,
                     caller: AccountId32, claim: Content)
    requires Tracks(start, stored, ops, st, s) && claim !in s.claims
    ensures var d := CreateEffect(s, caller, claim);
            Tracks(start, stored, ops + [Created(claim)], Replay(st, d.writes), d.state)
  {
    var d := CreateEffect(s, caller, claim);
    var held := s.claims.Keys + {claim};
    assert d.state.claims.Keys == held;
    HeldSnoc(start, ops, Created(claim));
    ReplayOne(st, d.writes[0]);
    var last := Greatest(held);
    forall k
      ensures k in Replay(st, d.writes).claims <==> Saved(start, stored, ops + [Created(claim)], k)
    {
      SavedSnoc(start, stored, ops, Created(claim), k);
      if IsGreatest(k, held) { GreatestUnique(k, last, held); }
    }
  }

  lemma TracksRevoke(start: set<Content>, stored: set<Content>, ops: seq<ClaimOp>, st: Store, s: State,
                     caller: AccountId32, claim: Content)
    requires Tracks(start, stored, ops, st, s) && claim in s.claims && s.claims[claim] == caller
    ensures var d := RevokeEffect(s, caller, claim);
            Tracks(start, stored, ops + [Revoked(claim)], Replay(st, d.writes), d.state)
  {
    var d := RevokeEffect(s, caller, claim);
    HeldSnoc(start, ops, Revoked(claim));
    ReplayOne(st, d.writes[0]);
    forall k
      ensures k in Replay(st, d.writes).claims <==> Saved(start, stored, ops + [Revoked(claim)], k)
    {
      SavedSnoc(start, stored, ops, Revoked(claim), k);
    }
  }

  lemma TransferKeepsClaims(st: Store, s: State, caller: AccountId32, to: AccountId32, amount: U128)
    ensures var d := TransferEffect(s, caller, to, amount);
            Replay(st, d.writes).claims == st.claims && d.state.claims == s.claims
  {
    var d := TransferEffect(s, caller, to, amount);
    if d.result == Ok { ReplayTwo(st, d.writes[0], d.writes[1]); }
  }

  lemma DispatchTracks(start: set<Content>, stored: set<Content>, ops: seq<ClaimOp>, st: Store, s: State,
                       caller: AccountId32, call: RuntimeCall)
    requires Tracks(start, stored, ops, st, s)
    ensures var d := Dispatch(s, caller, call);
            Tracks(start, stored, ops + CallOp(call, d.result), Replay(st, d.writes), d.state)
  {
    var d := Dispatch(s, caller, call);
    if d.result.Err? {
      assert ops + [] == ops;
    } else {
      match call
      case Balances(Transfer(to, amount)) =>
        TransferKeepsClaims(st, s, caller, to, amount);
        assert ops + [] == ops;
      case ProofOfExistence(CreateClaim(claim)) => TracksCreate(start, stored, ops, st, s, caller, claim);
      case ProofOfExistence(RevokeClaim(claim)) => TracksRevoke(start, stored, ops, st, s, caller, claim);
    }
  }

  lemma StepTracksAccepted(start: set<Content>, stored: set<Content>, ops: seq<ClaimOp>, st: Store, t: State,
                           e: Extrinsic, log: seq<Entry>)
    requires Tracks(start, stored, ops, st, t) && e.nonce < U32_MAX
    requires log == [Entry(PutNonce(e.signer, e.nonce + 1), None)]
                    + Tagged(Dispatch(t, e.signer, e.call).writes, Some(CallId(e.signer, e.nonce)))
    ensures var d := Dispatch(t, e.signer, e.call);
            Tracks(start, stored, ops + CallOp(e.call, d.result), After(st, log), d.state)
  {
    DispatchTracks(start, stored, ops, Apply(st, PutNonce(e.signer, e.nonce + 1)), t, e.signer, e.call);
    AfterNonce(st, e.signer, e.nonce + 1, Dispatch(t, e.signer, e.call).writes, CallId(e.signer, e.nonce));
  }

  lemma StepOps(s: State, e: Extrinsic, r: DispatchResult)
    ensures var x := Step(s, e, r);
            if x.log == [] then Ops(x.receipts) == [] && x.state == s
            else
              && e.nonce < U32_MAX
              && var t := s.(nonces := s.nonces[e.signer := e.nonce + 1]);
                 Ops(x.receipts) == CallOp(e.call, Dispatch(t, e.signer, e.call).result)
  {
    StepLog(s, e, r);
  }

  lemma StepTracks(start: set<Content>, stored: set<Content>, ops: seq<ClaimOp>, st: Store, s: State,
                   e: Extrinsic, r: DispatchResult)
    requires Tracks(start, stored, ops, st, s)
    ensures var x := Step(s, e, r);
            Tracks(start, stored, ops + Ops(x.receipts), After(st, x.log), x.state)
  {
    StepOps(s, e, r);
    if Step(s, e, r).log == [] {
      NothingWritten(st);
      assert ops + [] == ops;
    } else {
      StepLog(s, e, r);
      StepTracksAccepted(start, stored, ops, st, s.(nonces := s.nonces[e.signer := e.nonce + 1]), e, Step(s, e, r).log);
    }
  }

  lemma OpsRegroup(a: seq<ClaimOp>, x: seq<Receipt>, y: seq<Receipt>)
    ensures a + Ops(x) + Ops(y) == a + Ops(x + y)
  {
    OpsConcat(x, y);
  }

  lemma {:induction false} LoopTracks(start: set<Content>, stored: set<Content>, ops: seq<ClaimOp>, st: Store, s: State,
                                      es: seq<Extrinsic>, rs: seq<DispatchResult>)
    requires |es| == |rs| && Tracks(start, stored, ops, st, s)
    ensures var x := Loop(s, es, rs);
            Tracks(start, stored, ops + Ops(x.receipts), After(st, x.log), x.state)
  {
    if es == [] {
      assert Writes([]) == [];
      assert ops + [] == ops;
    } else {
      var n := |es| - 1;
      LoopTracks(start, stored, ops, st, s, es[..n], rs[..n]);
      var x := Loop(s, es[..n], rs[..n]);
      if x.end.Returned? {
        var y := Step(x.state, es[n], rs[n]);
        StepTracks(start, stored, ops + Ops(x.receipts), After(st, x.log), x.state, es[n], rs[n]);
        AfterConcat(st, x.log, y.log);
        OpsRegroup(ops, x.receipts, y.receipts);
      }
    }
  }

  lemma TracksHeight(start: set<Content>, stored: set<Content>, ops: seq<ClaimOp>, st: Store, s: State, h: U32)
    requires Tracks(start, stored, ops, st, s)
    ensures Tracks(start, stored, ops, After(st, [Entry(PutHeight(h), None)]), s.(height := h))
  {
    AfterHeight(st, h);
  }

  lemma BlockTracksLoop(start: set<Content>, stored: set<Content>, ops: seq<ClaimOp>, c: Crypto, st: Store, s: State,
                        b: Block)
    requires Tracks(start, stored, ops, st, s) && s.height < U32_MAX && b.header.blockNumber == s.height + 1
    ensures var x := ExecuteBlock(c, s, b);
            Tracks(start, stored, ops + Ops(x.receipts), After(st, x.log), x.state)
  {
    var t, rs := s.(height := s.height + 1), VerifyBatch(c, b.extrinsics);
    var log := [Entry(PutHeight(t.height), None)];
    TracksHeight(start, stored, ops, st, s, t.height);
    LoopTracks(start, stored, ops, After(st, log), t, b.extrinsics, rs);
    AfterConcat(st, log, Loop(t, b.extrinsics, rs).log);
    BlockIsLoop(c, s, b);
  }

  lemma BlockTracks(start: set<Content>, stored: set<Content>, ops: seq<ClaimOp>, c: Crypto, st: Store, s: State,
                    b: Block)
    requires Tracks(start, stored, ops, st, s)
    ensures var x := ExecuteBlock(c, s, b);
            Tracks(start, stored, ops + Ops(x.receipts), After(st, x.log), x.state)
  {
    if s.height < U32_MAX && b.header.blockNumber == s.height + 1 {
      BlockTracksLoop(start, stored, ops, c, st, s, b);
    } else {
      BlockIsRefused(c, s, b);
      assert Ops(ExecuteBlock(c, s, b).receipts) == [];
      assert ops + [] == ops;
      if s.height == U32_MAX { NothingWritten(st); } else { TracksHeight(start, stored, ops, st, s, s.height + 1); }
    }
  }

  lemma {:induction false} RunTracks(c: Crypto, st: Store, s: State, bs: seq<Block>)
    ensures var x := Run(c, s, bs);
            Tracks(s.claims.Keys, st.claims.Keys, Ops(x.receipts), After(st, x.log), x.state)
  {
    var start, stored := s.claims.Keys, st.claims.Keys;
    if bs == [] {
      assert Writes([]) == [];
    } else {
      var n := |bs| - 1;
      RunTracks(c, st, s, bs[..n]);
      var x := Run(c, s, bs[..n]);
      if x.end.Returned? {
        var y := ExecuteBlock(c, x.state, bs[n]);
        BlockTracks(start, stored, Ops(x.receipts), c, After(st, x.log), x.state, bs[n]);
        AfterConcat(st, x.log, y.log);
        OpsConcat(x.receipts, y.receipts);
      }
    }
  }

  /** Exactly which claims are in the store after any run, from any state and store: those stored at the
      start and not revoked, and those that some successful create, their own or a later one of another
      claim, found to be the greatest held, and that were not revoked after it. */
  lemma ClaimSaved(c: Crypto, st: Store, s: State, bs: seq<Block>, k: Content)
    ensures var x := Run(c, s, bs);
            && (k in x.state.claims <==> k in Held(s.claims.Keys, Ops(x.receipts)))
            && (k in After(st, x.log).claims <==> Saved(s.claims.Keys, st.claims.Keys, Ops(x.receipts), k))
  {
    RunTracks(c, st, s, bs);
  }

  /** A restart after a run brings the whole state back, claims included, if and only if every claim then
      held was saved. */
  lemma RestartIsExact(c: Crypto, st: Store, s: State, bs: seq<Block>)
    requires Synced(st, s)
    ensures var x := Run(c, s, bs);
            Load(After(st, x.log)) == x.state <==>
            forall k :: k in x.state.claims ==> Saved(s.claims.Keys, st.claims.Keys, Ops(x.receipts), k)
  {
    var x := Run(c, s, bs);
    RunSynced(c, st, s, bs);
    RunTracks(c, st, s, bs);
  }

  /** One owner's create, when `last` is then the greatest held: what it does to memory and store. */
  lemma CreateStores(st: Store, s: State, owner: AccountId32, claim: Content, last: Content)
    requires claim !in s.claims && IsGreatest(last, s.claims.Keys + {claim})
    ensures var d := CreateEffect(s, owner, claim);
            && d.result == Ok && d.state == s.(claims := s.claims[claim := owner])
            && Replay(st, d.writes) == st.(claims := st.claims[last := d.state.claims[last]])
  {
    PersistsGreatest(s, owner, claim, last);
    ReplayOne(st, CreateEffect(s, owner, claim).writes[0]);
  }

  lemma RevokeDeletes(st: Store, s: State, owner: AccountId32, claim: Content)
    requires claim in s.claims && s.claims[claim] == owner
    ensures var d := RevokeEffect(s, owner, claim);
            && d.result == Ok && d.state == s.(claims := s.claims - {claim})
            && Replay(st, d.writes) == st.(claims := st.claims - {claim})
  {
    ReplayOne(st, RevokeEffect(s, owner, claim).writes[0]);
  }

  /** With `b` held and stored, creating `a` before it stores nothing new; revoking `b` empties the store. */
  lemma LostAtFirst(st: Store, s: State, owner: AccountId32, a: Content, b: Content)
    requires Below(a, b) && s.claims == st.claims == map[b := owner]
    ensures var w := CreateEffect(s, owner, a);
            var x := RevokeEffect(w.state, owner, b);
            && w.result == Ok && x.result == Ok && a in w.state.claims && Replay(st, w.writes) == st
            && x.state == s.(claims := map[a := owner])
            && Replay(st, x.writes) == st.(claims := map[])
  {
    LexTotal(a.utf8, b.utf8);
    assert IsGreatest(b, s.claims.Keys + {a});
    CreateStores(st, s, owner, a, b);
    var t := s.(claims := map[b := owner, a := owner]);
    RevokeDeletes(st, t, owner, b);
    assert t.claims - {b} == map[a := owner];
    assert st.claims - {b} == map[];
  }

  /** With `a` held and not stored, creating `o` before it stores `a`. */
  lemma SavedInTheEnd(st: Store, s: State, owner: AccountId32, o: Content, a: Content)
    requires Below(o, a) && s.claims == map[a := owner] && st.claims == map[]
    ensures var y := CreateEffect(s, owner, o);
            var z := RevokeEffect(y.state, owner, o);
            && y.result == Ok && z.result == Ok
            && Replay(st, y.writes) == st.(claims := map[a := owner])
            && z.state == s && Replay(Replay(st, y.writes), z.writes) == st.(claims := map[a := owner])
  {
    LexTotal(o.utf8, a.utf8);
    assert IsGreatest(a, s.claims.Keys + {o});
    CreateStores(st, s, owner, o, a);
    var st3, t := st.(claims := map[a := owner]), s.(claims := map[a := owner, o := owner]);
    RevokeDeletes(st3, t, owner, o);
    assert t.claims - {o} == s.claims;
    assert st3.claims - {o} == s.claims;
  }

  /** A claim that did not sort after all held when it was made can still be saved by a later create of a
      smaller one, and a run that made such claims can end with nothing lost: for o < a < b, with `b` held,
      create `a`, revoke `b`, create `o`, revoke `o`. */
  lemma SmallerClaimSavedLater(s: State, owner: AccountId32, o: Content, a: Content, b: Content)
    requires Below(o, a) && Below(a, b) && s.claims == map[b := owner]
    ensures var st := Store(Some(s.height), s.nonces, s.balances, s.claims);
            var w := CreateEffect(s, owner, a);
            var x := RevokeEffect(w.state, owner, b);
            var y := CreateEffect(x.state, owner, o);
            var z := RevokeEffect(y.state, owner, o);
            && Load(st) == s && !Tops(a, s.claims)
            && w.result == Ok && x.result == Ok && y.result == Ok && z.result == Ok
            && a in w.state.claims && a !in Replay(st, w.writes).claims
            && a in Replay(Replay(Replay(st, w.writes), x.writes), y.writes).claims
            && Load(Replay(Replay(Replay(Replay(st, w.writes), x.writes), y.writes), z.writes)) == z.state
  {
    var st := Store(Some(s.height), s.nonces, s.balances, s.claims);
    LexTotal(a.utf8, b.utf8);
    assert b in s.claims;
    LostAtFirst(st, s, owner, a, b);
    SavedInTheEnd(st.(claims := map[]), s.(claims := map[a := owner]), owner, o, a);
  }

  // ---- runs that lose nothing --------------------------------------------------------------------

  /** The extrinsic, if it would create a claim, creates one that sorts after all held. */
  ghost predicate Ascends(s: State, e: Extrinsic) {
    e.call.ProofOfExistence? && e.call.poe.CreateClaim? && e.call.poe.claim !in s.claims ==>
      Tops(e.call.poe.claim, s.claims)
  }

  ghost predicate LoopAscends(s: State, es: seq<Extrinsic>, rs: seq<DispatchResult>)
    requires |es| == |rs|
  {
    forall i :: 0 <= i < |es| ==> Ascends(Loop(s, es[..i], rs[..i]).state, es[i])
  }

  ghost predicate BlockAscends(c: Crypto, s: State, b: Block) {
    s.height < U32_MAX ==> LoopAscends(s.(height := s.height + 1), b.extrinsics, VerifyBatch(c, b.extrinsics))
  }

  ghost predicate RunAscends(c: Crypto, s: State, bs: seq<Block>) {
    bs == [] || (RunAscends(c, s, bs[..|bs| - 1]) && BlockAscends(c, Run(c, s, bs[..|bs| - 1]).state, bs[|bs| - 1]))
  }

  lemma DispatchExact(st: Store, s: State, caller: AccountId32, call: RuntimeCall)
    requires Synced(st, s) && st.claims == s.claims
    requires call.ProofOfExistence? && call.poe.CreateClaim? && call.poe.claim !in s.claims ==>
               Tops(call.poe.claim, s.claims)
    ensures Replay(st, Dispatch(s, caller, call).writes).claims == Dispatch(s, caller, call).state.claims
  {
    var d := Dispatch(s, caller, call);
    if d.result.Ok? {
      match call
      case Balances(Transfer(to, amount)) => ReplayTwo(st, d.writes[0], d.writes[1]);
      case ProofOfExistence(CreateClaim(claim)) => CreatePersists(st, s, caller, claim);
      case ProofOfExistence(RevokeClaim(claim)) => ReplayOne(st, d.writes[0]);
    }
  }

  lemma StepExact(st: Store, s: State, e: Extrinsic, r: DispatchResult)
    requires Synced(st, s) && st.claims == s.claims && Ascends(s, e)
    ensures After(st, Step(s, e, r).log).claims == Step(s, e, r).state.claims
  {
    StepLog(s, e, r);
    if Step(s, e, r).log == [] {
      assert Writes([]) == [];
    } else {
      var bumped := s.(nonces := s.nonces[e.signer := e.nonce + 1]);
      var put := PutNonce(e.signer, e.nonce + 1);
      DispatchExact(Apply(st, put), bumped, e.signer, e.call);
      AfterNonce(st, e.signer, e.nonce + 1, Dispatch(bumped, e.signer, e.call).writes, CallId(e.signer, e.nonce));
    }
  }

  lemma AscendsInit(s: State, es: seq<Extrinsic>, rs: seq<DispatchResult>, n: nat)
    requires |es| == |rs| == n + 1 && LoopAscends(s, es, rs)
    ensures LoopAscends(s, es[..n], rs[..n]) && Ascends(Loop(s, es[..n], rs[..n]).state, es[n])
  {
    forall i | 0 <= i < n
      ensures Ascends(Loop(s, es[..n][..i], rs[..n][..i]).state, es[..n][i])
    {
      assert es[..n][..i] == es[..i] && rs[..n][..i] == rs[..i];
    }
  }

  lemma {:induction false} LoopExact(st: Store, s: State, es: seq<Extrinsic>, rs: seq<DispatchResult>)
    requires |es| == |rs| && Synced(st, s) && st.claims == s.claims && LoopAscends(s, es, rs)
    ensures After(st, Loop(s, es, rs).log).claims == Loop(s, es, rs).state.claims
  {
    if es == [] {
      NothingWritten(st);
    } else {
      var n := |es| - 1;
      AscendsInit(s, es, rs, n);
      LoopExact(st, s, es[..n], rs[..n]);
      LoopSynced(st, s, es[..n], rs[..n]);
      var x := Loop(s, es[..n], rs[..n]);
      if x.end.Returned? {
        StepExact(After(st, x.log), x.state, es[n], rs[n]);
        AfterConcat(st, x.log, Step(x.state, es[n], rs[n]).log);
      }
    }
  }

  lemma BlockExact(c: Crypto, st: Store, s: State, b: Block)
    requires Synced(st, s) && st.claims == s.claims
    requires BlockAscends(c, s, b)
    ensures After(st, ExecuteBlock(c, s, b).log).claims == ExecuteBlock(c, s, b).state.claims
  {
    if s.height == U32_MAX {
      assert Writes([]) == [];
    } else {
      var t := s.(height := s.height + 1);
      var log := [Entry(PutHeight(t.height), None)];
      AfterHeight(st, t.height);
      if b.header.blockNumber == t.height {
        LoopExact(After(st, log), t, b.extrinsics, VerifyBatch(c, b.extrinsics));
        AfterConcat(st, log, Loop(t, b.extrinsics, VerifyBatch(c, b.extrinsics)).log);
      }
    }
  }

  /** Over runs in which every new claim sorts after those then held, the store holds exactly the claims in
      memory, so that a restart brings the whole state back. */
  lemma {:induction false} AscendingRunIsExact(c: Crypto, st: Store, s: State, bs: seq<Block>)
    requires Load(st) == s && RunAscends(c, s, bs)
    ensures Load(After(st, Run(c, s, bs).log)) == Run(c, s, bs).state
  {
    if bs == [] {
      assert Writes([]) == [];
    } else {
      var n := |bs| - 1;
      AscendingRunIsExact(c, st, s, bs[..n]);
      var x := Run(c, s, bs[..n]);
      if x.end.Returned? {
        BlockExact(c, After(st, x.log), x.state, bs[n]);
        BlockSynced(c, After(st, x.log), x.state, bs[n]);
        AfterConcat(st, x.log, ExecuteBlock(c, x.state, bs[n]).log);
      }
    }
  }
}
