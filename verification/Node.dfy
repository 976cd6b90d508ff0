/** One node between its mempool and its runtime: the steps of the event loop as values, and the queue
    invariant that honest clients and peers keep (src/node.rs). */
module Node {
  import opened Types
  import opened RuntimeSpec
  import opened Nonces
  import opened Batch
  import M = Mempool
  import opened Peers

  datatype Node = Node(rt: State, pool: seq<Extrinsic>, peers: seq<PeerId>, me: PeerId)

  /** `Mempool::with_block_limit(3)`. */
  const BLOCK_LIMIT: nat := 3

  /** `nonce_handler`: the runtime's nonce plus the number of the account's pending extrinsics. */
  function QuotedNonce(n: Node, a: AccountId32): nat { NonceOf(n.rt.nonces, a) + |BySigner(n.pool, a)| }

  function Drained(pool: seq<Extrinsic>): seq<Extrinsic> { pool[..M.Least(BLOCK_LIMIT, |pool|)] }
  function Undrained(pool: seq<Extrinsic>): seq<Extrinsic> { pool[M.Least(BLOCK_LIMIT, |pool|)..] }

  function NextBlock(s: State, batch: seq<Extrinsic>): Block
    requires s.height < U32_MAX
  {
    Block(Header(s.height + 1), batch)
  }

  predicate SameId(e: Extrinsic, f: Extrinsic) { e.signer == f.signer && e.nonce == f.nonce }

  /** The block names the extrinsic's signer and nonce. */
  predicate Named(es: seq<Extrinsic>, e: Extrinsic) {
    Carries(es, e.signer, e.nonce)
  }

  /** What `retain` leaves after a peer block. */
  function Evict(pool: seq<Extrinsic>, es: seq<Extrinsic>): seq<Extrinsic> {
    M.Filter(pool, e => !Named(es, e))
  }

  function Submitted(n: Node, e: Extrinsic): Node { n.(pool := n.pool + [e]) }

  /** `produce_block` with one of its possible batches; what it drained does not come back. */
  ghost function Produced(c: Crypto, n: Node, batch: seq<Extrinsic>): Node {
    if n.rt.height == U32_MAX then n.(pool := Undrained(n.pool))
    else n.(rt := ExecuteBlock(c, n.rt, NextBlock(n.rt, batch)).state, pool := Undrained(n.pool))
  }

  /** A block from a peer: executed, and if it was not rejected its extrinsics are evicted. */
  ghost function Received(c: Crypto, n: Node, b: Block): Node {
    var x := ExecuteBlock(c, n.rt, b);
    n.(rt := x.state, pool := if x.end == Returned(Ok) then Evict(n.pool, b.extrinsics) else n.pool)
  }

  // ---- the honest queue --------------------------------------------------------------------------

  ghost predicate Signed(c: Crypto, es: seq<Extrinsic>) {
    forall i :: 0 <= i < |es| ==> Verify(c, es[i]).Ok? && es[i].nonce < U32_MAX
  }

  /** Each signer's pending nonces, in queue order, are exactly the runtime's nonce, + 1, + 2, …, and every
      pending extrinsic is validly signed. */
  ghost predicate HonestQueue(c: Crypto, s: State, pool: seq<Extrinsic>) {
    GapFree(pool, s.nonces) && Signed(c, pool)
  }

  lemma SubmitKeeps(c: Crypto, n: Node, e: Extrinsic)
    requires HonestQueue(c, n.rt, n.pool)
    requires Verify(c, e).Ok? && e.nonce == QuotedNonce(n, e.signer) && e.nonce < U32_MAX
    ensures HonestQueue(c, Submitted(n, e).rt, Submitted(n, e).pool)
  {
    GapFreeSnoc(n.pool, e, n.rt.nonces);
  }

  /** Nonces in `y` go on where those in `x` end. */
  ghost predicate Continues(x: seq<Extrinsic>, y: seq<Extrinsic>, m: map<AccountId32, U32>) {
    forall a :: CountsFrom(BySigner(y, a), NonceOf(m, a) + |BySigner(x, a)|)
  }

  lemma GapFreeSplit(x: seq<Extrinsic>, y: seq<Extrinsic>, m: map<AccountId32, U32>)
    requires GapFree(x + y, m)
    ensures GapFree(x, m) && Continues(x, y, m)
  {
    forall a
      ensures CountsFrom(BySigner(x, a), NonceOf(m, a))
      ensures CountsFrom(BySigner(y, a), NonceOf(m, a) + |BySigner(x, a)|)
    {
      SplitAt(x, y, m, a);
    }
  }

  lemma SplitAt(x: seq<Extrinsic>, y: seq<Extrinsic>, m: map<AccountId32, U32>, a: AccountId32)
    requires GapFree(x + y, m)
    ensures CountsFrom(BySigner(x, a), NonceOf(m, a))
    ensures CountsFrom(BySigner(y, a), NonceOf(m, a) + |BySigner(x, a)|)
  {
    assert CountsFrom(BySigner(x + y, a), NonceOf(m, a));
    BySignerConcat(x, y, a);
    CountsSplit(BySigner(x, a), BySigner(y, a), NonceOf(m, a));
  }

  lemma CountsSplit(x: seq<Extrinsic>, y: seq<Extrinsic>, n: int)
    requires CountsFrom(x + y, n)
    ensures CountsFrom(x, n) && CountsFrom(y, n + |x|)
  {
    assert forall i :: 0 <= i < |x| ==> (x + y)[i] == x[i];
    assert forall i :: 0 <= i < |y| ==> (x + y)[|x| + i] == y[i];
  }

  lemma SignedPart(c: Crypto, x: seq<Extrinsic>, y: seq<Extrinsic>, pool: seq<Extrinsic>)
    requires Signed(c, pool) && pool == x + y
    ensures Signed(c, x) && Signed(c, y)
  {
    assert forall i :: 0 <= i < |x| ==> pool[i] == x[i];
    assert forall i :: 0 <= i < |y| ==> pool[|x| + i] == y[i];
  }

  lemma SignedRearranged(c: Crypto, x: seq<Extrinsic>, y: seq<Extrinsic>)
    requires Signed(c, x) && multiset(x) == multiset(y)
    ensures Signed(c, y)
  {
    forall i | 0 <= i < |y|
      ensures Verify(c, y[i]).Ok? && y[i].nonce < U32_MAX
    {
      assert y[i] in multiset(y);
      assert y[i] in x;
    }
  }

  lemma TakenAndLeft(pool: seq<Extrinsic>)
    ensures Drained(pool) + Undrained(pool) == pool
  {}

  /** An honest queue splits into honest candidates and what continues them. */
  lemma HonestSplit(c: Crypto, s: State, pool: seq<Extrinsic>, d: seq<Extrinsic>, u: seq<Extrinsic>)
    requires HonestQueue(c, s, pool) && pool == d + u
    ensures HonestQueue(c, s, d) && Continues(d, u, s.nonces) && Signed(c, u)
  {
    GapFreeSplit(d, u, s.nonces);
    SignedPart(c, d, u, pool);
  }

  /** A batch from honest candidates holds all of them. */
  lemma HonestBatch(c: Crypto, s: State, d: seq<Extrinsic>, batch: seq<Extrinsic>)
    requires HonestQueue(c, s, d) && IsBatch(batch, d, s.nonces)
    ensures multiset(batch) == multiset(d) && forall a :: BySigner(batch, a) == BySigner(d, a)
    ensures GapFree(batch, s.nonces) && Signed(c, batch)
  {
    HonestAllTaken(batch, d, s.nonces);
    BatchIsGapFree(batch, d, s.nonces);
    SignedRearranged(c, d, batch);
  }

  lemma SignedRuns(c: Crypto, s: State, batch: seq<Extrinsic>)
    requires s.height < U32_MAX && GapFree(batch, s.nonces) && Signed(c, batch)
    ensures var x := ExecuteBlock(c, s, NextBlock(s, batch));
            Accepted(x.receipts) == batch && x.end == Returned(Ok) && Follows(s.nonces, batch, x.state.nonces)
  {
    assert Runnable(batch, VerifyBatch(c, batch));
    BlockAcceptsAll(c, s, NextBlock(s, batch));
  }

  /** On an honest queue `produce_block` drops nothing: whatever the order of the signers, the block holds
      exactly what was drained, every extrinsic of it is accepted, and what is left is an honest queue. */
  lemma OwnBlockKeeps(c: Crypto, n: Node, batch: seq<Extrinsic>)
    requires n.rt.height < U32_MAX && HonestQueue(c, n.rt, n.pool)
    requires IsBatch(batch, Drained(n.pool), n.rt.nonces)
    ensures var x := ExecuteBlock(c, n.rt, NextBlock(n.rt, batch));
            && multiset(batch) == multiset(Drained(n.pool))
            && Accepted(x.receipts) == batch && x.end == Returned(Ok)
            && Follows(n.rt.nonces, batch, x.state.nonces)
    ensures HonestQueue(c, Produced(c, n, batch).rt, Produced(c, n, batch).pool)
  {
    TakenAndLeft(n.pool);
    HonestSplit(c, n.rt, n.pool, Drained(n.pool), Undrained(n.pool));
    HonestBatch(c, n.rt, Drained(n.pool), batch);
    SignedRuns(c, n.rt, batch);
    RestIsGapFree(Drained(n.pool), Undrained(n.pool), batch, n.rt.nonces,
                  ExecuteBlock(c, n.rt, NextBlock(n.rt, batch)).state.nonces);
  }

  /** What stays behind goes on from where the block has taken the runtime. */
  lemma RestIsGapFree(d: seq<Extrinsic>, u: seq<Extrinsic>, batch: seq<Extrinsic>,
                      m: map<AccountId32, U32>, after: map<AccountId32, U32>)
    requires Continues(d, u, m) && Follows(m, batch, after)
    requires forall a :: BySigner(batch, a) == BySigner(d, a)
    ensures GapFree(u, after)
  {
    forall a
      ensures CountsFrom(BySigner(u, a), NonceOf(after, a))
    {
      assert CountsFrom(BySigner(u, a), NonceOf(m, a) + |BySigner(d, a)|);
    }
  }

  // ---- the queue drains --------------------------------------------------------------------------

  /** The states of a node through own slots with nothing in between. */
  ghost predicate OwnSlots(c: Crypto, n: Node, batches: seq<seq<Extrinsic>>, ns: seq<Node>) {
    && |ns| == |batches| + 1 && ns[0] == n
    && forall i :: 0 <= i < |batches| ==>
         && ns[i].rt.height < U32_MAX && IsBatch(batches[i], Drained(ns[i].pool), ns[i].rt.nonces)
         && ns[i + 1] == Produced(c, ns[i], batches[i])
  }

  /** What the blocks of these slots hold. */
  function InBlocks(batches: seq<seq<Extrinsic>>): seq<Extrinsic> {
    if batches == [] then [] else InBlocks(batches[..|batches| - 1]) + batches[|batches| - 1]
  }

  lemma MovedIntoBlocks(blocks: seq<Extrinsic>, batch: seq<Extrinsic>, pool: seq<Extrinsic>, all: multiset<Extrinsic>)
    requires multiset(blocks) + multiset(pool) == all && multiset(batch) == multiset(Drained(pool))
    ensures multiset(blocks + batch) + multiset(Undrained(pool)) == all
  {
    TakenAndLeft(pool);
    assert multiset(Drained(pool) + Undrained(pool)) == multiset(Drained(pool)) + multiset(Undrained(pool));
    assert multiset(blocks + batch) == multiset(blocks) + multiset(batch);
  }

  lemma InBlocksSnoc(batches: seq<seq<Extrinsic>>, k: nat)
    requires 0 < k <= |batches|
    ensures InBlocks(batches[..k]) == InBlocks(batches[..k - 1]) + batches[k - 1]
  {
    assert batches[..k][..k - 1] == batches[..k - 1];
  }

  /** After `k` own slots on an honest queue at least 3 k of it are gone, and what is gone is in the blocks, each of
      which was accepted in full. */
  lemma {:induction false} SlotsDrain(c: Crypto, n: Node, batches: seq<seq<Extrinsic>>, ns: seq<Node>, k: nat)
    requires HonestQueue(c, n.rt, n.pool) && OwnSlots(c, n, batches, ns) && k <= |batches|
    ensures HonestQueue(c, ns[k].rt, ns[k].pool)
    ensures |ns[k].pool| == if |n.pool| <= 3 * k then 0 else |n.pool| - 3 * k
    ensures multiset(InBlocks(batches[..k])) + multiset(ns[k].pool) == multiset(n.pool)
    ensures Follows(n.rt.nonces, InBlocks(batches[..k]), ns[k].rt.nonces)
  {
    if k == 0 {
    } else {
      var m, batch := ns[k - 1], batches[k - 1];
      SlotsDrain(c, n, batches, ns, k - 1);
      OwnBlockKeeps(c, m, batch);
      InBlocksSnoc(batches, k);
      FollowsConcat(n.rt.nonces, InBlocks(batches[..k - 1]), m.rt.nonces, batch, ns[k].rt.nonces);
      MovedIntoBlocks(InBlocks(batches[..k - 1]), batch, m.pool, multiset(n.pool));
    }
  }

  /** An honest queue of any length has run after as many own slots as a third of it, rounded up: it is empty, and
      the blocks of these slots, all accepted in full, hold exactly what was pending. */
  lemma AllRunInTime(c: Crypto, n: Node, batches: seq<seq<Extrinsic>>, ns: seq<Node>)
    requires HonestQueue(c, n.rt, n.pool) && OwnSlots(c, n, batches, ns)
    requires |batches| == (|n.pool| + 2) / 3
    ensures ns[|batches|].pool == []
    ensures multiset(InBlocks(batches)) == multiset(n.pool)
    ensures Follows(n.rt.nonces, InBlocks(batches), ns[|batches|].rt.nonces)
  {
    SlotsDrain(c, n, batches, ns, |batches|);
    assert batches[..|batches|] == batches;
  }

  // ---- eviction ----------------------------------------------------------------------------------

  /** Not yet run: the runtime has not passed its nonce. */
  predicate Ahead(e: Extrinsic, nonces: map<AccountId32, U32>) { e.nonce >= NonceOf(nonces, e.signer) }

  lemma {:induction false} FilterSame(xs: seq<Extrinsic>, f: Extrinsic -> bool, g: Extrinsic -> bool)
    requires forall i :: 0 <= i < |xs| ==> f(xs[i]) == g(xs[i])
    ensures M.Filter(xs, f) == M.Filter(xs, g)
  {
    if xs != [] { FilterSame(xs[..|xs| - 1], f, g); }
  }

  lemma {:induction false} FilterIn(xs: seq<Extrinsic>, f: Extrinsic -> bool, e: Extrinsic)
    ensures e in M.Filter(xs, f) <==> e in xs && f(e)
  {
    if xs != [] {
      FilterIn(xs[..|xs| - 1], f, e);
      assert xs == xs[..|xs| - 1] + [xs[|xs| - 1]];
    }
  }

  lemma {:induction false} FilterBySigner(xs: seq<Extrinsic>, f: Extrinsic -> bool, a: AccountId32)
    ensures BySigner(M.Filter(xs, f), a) == M.Filter(BySigner(xs, a), f)
  {
    if xs != [] {
      var init, x := xs[..|xs| - 1], xs[|xs| - 1];
      assert xs == init + [x];
      FilterBySigner(init, f, a);
      M.FilterSnoc(init, x, f);
      BySignerSnoc(init, x, a);
      M.FilterSnoc(BySigner(init, a), x, f);
      BySignerSnoc(M.Filter(init, f), x, a);
    }
  }

  lemma {:induction false} SurvivorsCount(xs: seq<Extrinsic>, n: int, v: int)
    requires CountsFrom(xs, n) && n <= v
    ensures var ys := M.Filter(xs, (e: Extrinsic) => e.nonce >= v);
            CountsFrom(ys, v) && |ys| == if n + |xs| <= v then 0 else n + |xs| - v
  {
    if xs != [] { SurvivorsCount(xs[..|xs| - 1], n, v); }
  }

  lemma AheadOfRuntime(pool: seq<Extrinsic>, m: map<AccountId32, U32>)
    requires GapFree(pool, m)
    ensures forall i :: 0 <= i < |pool| ==> Ahead(pool[i], m)
  {
    forall i | 0 <= i < |pool|
      ensures Ahead(pool[i], m)
    {
      NthOfSigner(pool, i);
      assert CountsFrom(BySigner(pool, pool[i].signer), NonceOf(m, pool[i].signer));
    }
  }

  /** The block carries, in order, validly signed extrinsics of the signer of `e` with every nonce from the
      runtime's up to that of `e`. */
  ghost predicate Reaches(c: Crypto, nonces: map<AccountId32, U32>, es: seq<Extrinsic>, e: Extrinsic) {
    var n := NonceOf(nonces, e.signer);
    e.nonce >= n && HasChain(c, es, e.signer, n, e.nonce - n + 1)
  }

  lemma ReachesNames(c: Crypto, nonces: map<AccountId32, U32>, es: seq<Extrinsic>, e: Extrinsic)
    requires Reaches(c, nonces, es, e)
    ensures Named(es, e)
  {
    var n := NonceOf(nonces, e.signer);
    var at :| |at| == e.nonce - n + 1 && Chain(c, es, e.signer, n, at);
    assert Links(c, es[at[e.nonce - n]], e.signer, n, e.nonce - n);
  }

  /** After a block that is not rejected, what is not ahead of the runtime was not ahead before, or was
      reached by the block. */
  lemma PassedExactly(c: Crypto, s: State, b: Block, e: Extrinsic)
    requires ExecuteBlock(c, s, b).end == Returned(Ok)
    ensures Ahead(e, ExecuteBlock(c, s, b).state.nonces) <==>
            Ahead(e, s.nonces) && !Reaches(c, s.nonces, b.extrinsics, e)
  {
    AcceptedExactly(c, s, b, e.signer, e.nonce);
  }

  /** Two filters keep the same only if they agree on every entry. */
  lemma FiltersAgree(xs: seq<Extrinsic>, f: Extrinsic -> bool, g: Extrinsic -> bool)
    ensures M.Filter(xs, f) == M.Filter(xs, g) <==> forall i :: 0 <= i < |xs| ==> f(xs[i]) == g(xs[i])
  {
    if M.Filter(xs, f) == M.Filter(xs, g) {
      forall i | 0 <= i < |xs|
        ensures f(xs[i]) == g(xs[i])
      {
        FilterIn(xs, f, xs[i]);
        FilterIn(xs, g, xs[i]);
      }
    } else if forall i :: 0 <= i < |xs| ==> f(xs[i]) == g(xs[i]) {
      FilterSame(xs, f, g);
    }
  }

  /** For any pool and any block that is not rejected: eviction leaves exactly the pending extrinsics whose
      nonce the runtime has not passed if and only if, for every pending extrinsic, the block names it just
      when it was stale already or the block reaches it. On a queue without stale entries: if and only if
      the block reaches every pending extrinsic that it names. */
  lemma EvictionExactly(c: Crypto, s: State, pool: seq<Extrinsic>, b: Block)
    requires ExecuteBlock(c, s, b).end == Returned(Ok)
    ensures var after := ExecuteBlock(c, s, b).state.nonces;
            Evict(pool, b.extrinsics) == M.Filter(pool, e => Ahead(e, after)) <==>
            forall i :: 0 <= i < |pool| ==>
              (Named(b.extrinsics, pool[i]) <==>
               !Ahead(pool[i], s.nonces) || Reaches(c, s.nonces, b.extrinsics, pool[i]))
    ensures var after := ExecuteBlock(c, s, b).state.nonces;
            GapFree(pool, s.nonces) ==>
              (Evict(pool, b.extrinsics) == M.Filter(pool, e => Ahead(e, after)) <==>
               forall i :: 0 <= i < |pool| && Named(b.extrinsics, pool[i]) ==>
                 Reaches(c, s.nonces, b.extrinsics, pool[i]))
  {
    var after := ExecuteBlock(c, s, b).state.nonces;
    FiltersAgree(pool, e => !Named(b.extrinsics, e), e => Ahead(e, after));
    forall i | 0 <= i < |pool|
      ensures Ahead(pool[i], after) <==> Ahead(pool[i], s.nonces) && !Reaches(c, s.nonces, b.extrinsics, pool[i])
      ensures Reaches(c, s.nonces, b.extrinsics, pool[i]) ==> Named(b.extrinsics, pool[i])
    {
      PassedExactly(c, s, b, pool[i]);
      if Reaches(c, s.nonces, b.extrinsics, pool[i]) { ReachesNames(c, s.nonces, b.extrinsics, pool[i]); }
    }
    if GapFree(pool, s.nonces) { AheadOfRuntime(pool, s.nonces); }
  }

  /** "Evicted means run" is false: a block may carry a badly signed extrinsic with the signer and nonce of a
      pending one. The block is not rejected, nothing is accepted, and the pending one is gone without having
      run. */
  lemma BadCopyEvicts(c: Crypto, n: Node, e: Extrinsic, f: Extrinsic)
    requires n.rt.height < U32_MAX && HonestQueue(c, n.rt, n.pool) && e in n.pool
    requires SameId(f, e) && Verify(c, f).Err?
    ensures var b := NextBlock(n.rt, [f]);
            var x := ExecuteBlock(c, n.rt, b);
            && x.end == Returned(Ok) && Accepted(x.receipts) == []
            && e !in Received(c, n, b).pool && Ahead(e, x.state.nonces)
  {
    NothingAccepted(c, n.rt, f);
    AheadOfRuntime(n.pool, n.rt.nonces);
    assert [f][0] == f && Named([f], e);
    FilterIn(n.pool, x => !Named([f], x), e);
  }

  /** Such an input exists in every state with room for one more nonce. */
  lemma BadCopyExists(s: State, a: AccountId32, call: RuntimeCall)
    requires NonceOf(s.nonces, a) < U32_MAX
    ensures exists c: Crypto, e: Extrinsic, f: Extrinsic ::
              HonestQueue(c, s, [e]) && e.call == call && SameId(f, e) && Verify(c, f).Err?
  {
    var good, bad := seq(64, i => 1), seq(64, i => 0);
    assert good[0] != bad[0];
    var c := Crypto(k => true, (k, payload, sig) => sig == good);
    var e := Extrinsic(a, good, NonceOf(s.nonces, a), call);
    var f := Extrinsic(a, bad, NonceOf(s.nonces, a), call);
    OneFollows(s.nonces, e);
    assert HonestQueue(c, s, [e]) && SameId(f, e) && Verify(c, f).Err?;
  }

  lemma NothingAccepted(c: Crypto, s: State, f: Extrinsic)
    requires s.height < U32_MAX && Verify(c, f).Err?
    ensures var x := ExecuteBlock(c, s, NextBlock(s, [f]));
            x.end == Returned(Ok) && Accepted(x.receipts) == [] && x.state.nonces == s.nonces
  {
    var t, r := s.(height := s.height + 1), Verify(c, f);
    assert VerifyBatch(c, [f]) == [] + [r];
    assert [f] == [] + [f];
    LoopSnoc(t, [], [], f, r);
    StepAccepts(t, f, r);
    BlockIsLoop(c, s, NextBlock(s, [f]));
  }

  lemma SurvivorsHonest(pool: seq<Extrinsic>, m: map<AccountId32, U32>, after: map<AccountId32, U32>)
    requires GapFree(pool, m) && forall a :: NonceOf(m, a) <= NonceOf(after, a)
    ensures GapFree(M.Filter(pool, e => Ahead(e, after)), after)
  {
    var f := (e: Extrinsic) => Ahead(e, after);
    forall a
      ensures CountsFrom(BySigner(M.Filter(pool, f), a), NonceOf(after, a))
    {
      var v := NonceOf(after, a);
      FilterBySigner(pool, f, a);
      AllBySigner(pool, a);
      assert CountsFrom(BySigner(pool, a), NonceOf(m, a));
      SurvivorsCount(BySigner(pool, a), NonceOf(m, a), v);
      FilterSame(BySigner(pool, a), f, (e: Extrinsic) => e.nonce >= v);
    }
  }

  lemma {:induction false} FilterSigned(c: Crypto, pool: seq<Extrinsic>, f: Extrinsic -> bool)
    requires Signed(c, pool)
    ensures Signed(c, M.Filter(pool, f))
  {
    if pool != [] {
      var n := |pool| - 1;
      FilterSigned(c, pool[..n], f);
    }
  }

  /** A peer block all of whose extrinsics are accepted, followed by eviction, keeps the queue honest, and
      exactly the pending extrinsics whose nonce it consumed are gone. */
  lemma PeerBlockKeeps(c: Crypto, n: Node, b: Block)
    requires HonestQueue(c, n.rt, n.pool)
    requires ExecuteBlock(c, n.rt, b).end == Returned(Ok) && Accepted(ExecuteBlock(c, n.rt, b).receipts) == b.extrinsics
    ensures var after := Received(c, n, b);
            && HonestQueue(c, after.rt, after.pool)
            && Follows(n.rt.nonces, b.extrinsics, after.rt.nonces)
            && after.pool == M.Filter(n.pool, e => Ahead(e, after.rt.nonces))
  {
    var after := ExecuteBlock(c, n.rt, b).state.nonces;
    BlockNonces(c, n.rt, b);
    forall i | 0 <= i < |n.pool| && Named(b.extrinsics, n.pool[i])
      ensures Reaches(c, n.rt.nonces, b.extrinsics, n.pool[i])
    {
      AcceptedExactly(c, n.rt, b, n.pool[i].signer, n.pool[i].nonce);
    }
    EvictionExactly(c, n.rt, n.pool, b);
    SurvivorsHonest(n.pool, n.rt.nonces, after);
    FilterSigned(c, n.pool, e => Ahead(e, after));
  }

  /** A peer block with another number than the next costs its height and nothing else: the pending extrinsics
      that it names stay. */
  lemma RejectedKeeps(c: Crypto, n: Node, b: Block)
    requires n.rt.height < U32_MAX && b.header.blockNumber != n.rt.height + 1
    ensures Received(c, n, b) == n.(rt := n.rt.(height := n.rt.height + 1))
    ensures Accepted(ExecuteBlock(c, n.rt, b).receipts) == []
  {
    BlockIsRefused(c, n.rt, b);
  }

  // ---- whole runs of one node --------------------------------------------------------------------

  datatype Event = Submit(ext: Extrinsic) | OwnSlot(batch: seq<Extrinsic>) | PeerBlock(block: Block)

  /** A node with all that was ever submitted to it, all that its runtime accepted from its peers' blocks, and all
      that it accepted, in order. */
  datatype Record = Record(node: Node, submitted: seq<Extrinsic>, carried: seq<Extrinsic>, accepted: seq<Extrinsic>)

  /** What honest clients and peers do, and the counters they leave room for. A peer may be out of step: its block
      is then rejected, whatever it holds. */
  ghost predicate Fair(c: Crypto, n: Node, ev: Event) {
    match ev
    case Submit(e) => Verify(c, e).Ok? && e.nonce == QuotedNonce(n, e.signer) && e.nonce < U32_MAX
    case OwnSlot(batch) => n.rt.height < U32_MAX && IsBatch(batch, Drained(n.pool), n.rt.nonces)
    case PeerBlock(b) =>
      || (n.rt.height < U32_MAX && b.header.blockNumber != n.rt.height + 1)
      || RunsInFull(c, n.rt, b)
  }

  /** The block is not rejected, and all its extrinsics are accepted. */
  ghost predicate RunsInFull(c: Crypto, s: State, b: Block) {
    ExecuteBlock(c, s, b).end == Returned(Ok) && Accepted(ExecuteBlock(c, s, b).receipts) == b.extrinsics
  }

  ghost function Next(c: Crypto, r: Record, ev: Event): Record
    requires Fair(c, r.node, ev)
  {
    match ev
    case Submit(e) => r.(node := Submitted(r.node, e), submitted := r.submitted + [e])
    case OwnSlot(batch) =>
      r.(node := Produced(c, r.node, batch),
         accepted := r.accepted + Accepted(ExecuteBlock(c, r.node.rt, NextBlock(r.node.rt, batch)).receipts))
    case PeerBlock(b) =>
      r.(node := Received(c, r.node, b), carried := r.carried + Accepted(ExecuteBlock(c, r.node.rt, b).receipts),
         accepted := r.accepted + Accepted(ExecuteBlock(c, r.node.rt, b).receipts))
  }

  /** The states after each event, starting with `n`. */
  ghost predicate Runs(c: Crypto, n: Node, evs: seq<Event>, rs: seq<Record>) {
    && |rs| == |evs| + 1 && rs[0] == Record(n, [], [], [])
    && forall i :: 0 <= i < |evs| ==> Fair(c, rs[i].node, evs[i]) && rs[i + 1] == Next(c, rs[i], evs[i])
  }

  ghost predicate InOrder(c: Crypto, start: map<AccountId32, U32>, r: Record) {
    && HonestQueue(c, r.node.rt, r.node.pool)
    && Follows(start, r.accepted, r.node.rt.nonces)
    && (forall e :: e in r.submitted ==> e.nonce >= NonceOf(start, e.signer))
    && (forall e :: e in r.submitted && Ahead(e, r.node.rt.nonces) ==> e in r.node.pool)
  }

  lemma SubmitInOrder(c: Crypto, start: map<AccountId32, U32>, r: Record, e: Extrinsic)
    requires InOrder(c, start, r) && Fair(c, r.node, Submit(e))
    ensures InOrder(c, start, Next(c, r, Submit(e)))
  {
    SubmitKeeps(c, r.node, e);
    assert NonceOf(r.node.rt.nonces, e.signer) >= NonceOf(start, e.signer);
  }

  lemma AcceptedHasRun(m: map<AccountId32, U32>, acc: seq<Extrinsic>, after: map<AccountId32, U32>, e: Extrinsic)
    requires Follows(m, acc, after) && e in acc
    ensures !Ahead(e, after)
  {
    var i :| 0 <= i < |acc| && acc[i] == e;
    NthOfSigner(acc, i);
    assert CountsFrom(BySigner(acc, e.signer), NonceOf(m, e.signer));
  }

  lemma StillPending(m: map<AccountId32, U32>, pool: seq<Extrinsic>, batch: seq<Extrinsic>,
                     after: map<AccountId32, U32>, e: Extrinsic)
    requires Follows(m, batch, after) && multiset(batch) == multiset(Drained(pool))
    requires e in pool && Ahead(e, after)
    ensures e in Undrained(pool)
  {
    TakenAndLeft(pool);
    assert e in Drained(pool) + Undrained(pool);
    if e in Drained(pool) {
      assert e in multiset(Drained(pool));
      assert e in multiset(batch);
      AcceptedHasRun(m, batch, after, e);
    }
  }

  lemma OwnSlotInOrder(c: Crypto, start: map<AccountId32, U32>, r: Record, batch: seq<Extrinsic>)
    requires InOrder(c, start, r) && Fair(c, r.node, OwnSlot(batch))
    ensures InOrder(c, start, Next(c, r, OwnSlot(batch)))
  {
    var n := r.node;
    var m, after := n.rt.nonces, Produced(c, n, batch).rt.nonces;
    OwnBlockKeeps(c, n, batch);
    FollowsConcat(start, r.accepted, m, batch, after);
    forall e | e in r.submitted && Ahead(e, after)
      ensures e in Undrained(n.pool)
    {
      assert NonceOf(after, e.signer) >= NonceOf(m, e.signer);
      StillPending(m, n.pool, batch, after, e);
    }
  }

  lemma PeerBlockInOrder(c: Crypto, start: map<AccountId32, U32>, r: Record, b: Block)
    requires InOrder(c, start, r) && Fair(c, r.node, PeerBlock(b))
    ensures InOrder(c, start, Next(c, r, PeerBlock(b)))
  {
    if RunsInFull(c, r.node.rt, b) {
      FullBlockInOrder(c, start, r, b);
    } else {
      RejectedKeeps(c, r.node, b);
      Untailed(r.accepted);
    }
  }

  lemma FullBlockInOrder(c: Crypto, start: map<AccountId32, U32>, r: Record, b: Block)
    requires InOrder(c, start, r) && RunsInFull(c, r.node.rt, b)
    ensures InOrder(c, start, Next(c, r, PeerBlock(b)))
  {
    var n := r.node;
    var after := Received(c, n, b).rt.nonces;
    PeerBlockKeeps(c, n, b);
    FollowsConcat(start, r.accepted, n.rt.nonces, b.extrinsics, after);
    forall e | e in r.submitted && Ahead(e, after)
      ensures e in Received(c, n, b).pool
    {
      assert NonceOf(after, e.signer) >= NonceOf(n.rt.nonces, e.signer);
      FilterIn(n.pool, x => Ahead(x, after), e);
    }
  }

  lemma EventInOrder(c: Crypto, start: map<AccountId32, U32>, r: Record, ev: Event)
    requires InOrder(c, start, r) && Fair(c, r.node, ev)
    ensures InOrder(c, start, Next(c, r, ev))
  {
    match ev
    case Submit(e) => SubmitInOrder(c, start, r, e);
    case OwnSlot(batch) => OwnSlotInOrder(c, start, r, batch);
    case PeerBlock(b) => PeerBlockInOrder(c, start, r, b);
  }

  lemma {:induction false} RunInOrder(c: Crypto, n: Node, evs: seq<Event>, rs: seq<Record>, i: nat)
    requires n.pool == [] && Runs(c, n, evs, rs) && i < |rs|
    ensures InOrder(c, n.rt.nonces, rs[i])
  {
    if i == 0 {
    } else {
      RunInOrder(c, n, evs, rs, i - 1);
      EventInOrder(c, n.rt.nonces, rs[i - 1], evs[i - 1]);
    }
  }

  // ---- which extrinsic, and not only which nonce ------------------------------------------------

  /** Pending ones were submitted; submitted ones are below the nonce now quoted and differ in signer or nonce;
      accepted ones were submitted or came in a peer's block. */
  ghost predicate Accounted(r: Record) {
    && (forall e :: e in r.node.pool ==> e in r.submitted)
    && (forall e :: e in r.submitted ==> e.nonce < QuotedNonce(r.node, e.signer))
    && (forall e, f :: e in r.submitted && f in r.submitted && SameId(e, f) ==> e == f)
    && (forall e :: e in r.accepted ==> e in r.submitted || e in r.carried)
  }

  lemma SubmitAccounted(c: Crypto, r: Record, e: Extrinsic)
    requires Accounted(r) && Fair(c, r.node, Submit(e))
    ensures Accounted(Next(c, r, Submit(e)))
  {
    forall f | f in r.submitted
      ensures f.nonce < QuotedNonce(Submitted(r.node, e), f.signer) && !SameId(e, f) && !SameId(f, e)
    {
      BySignerSnoc(r.node.pool, e, f.signer);
    }
  }

  lemma QuoteAfterOwn(c: Crypto, n: Node, batch: seq<Extrinsic>, a: AccountId32)
    requires HonestQueue(c, n.rt, n.pool) && Fair(c, n, OwnSlot(batch))
    ensures QuotedNonce(Produced(c, n, batch), a) == QuotedNonce(n, a)
  {
    var d, u := Drained(n.pool), Undrained(n.pool);
    OwnBlockKeeps(c, n, batch);
    assert n.pool == d + u;
    BySignerConcat(d, u, a);
    GapFreeSplit(d, u, n.rt.nonces);
    HonestAllTaken(batch, d, n.rt.nonces);
  }

  lemma OwnSlotAccounted(c: Crypto, r: Record, batch: seq<Extrinsic>)
    requires HonestQueue(c, r.node.rt, r.node.pool) && Accounted(r) && Fair(c, r.node, OwnSlot(batch))
    ensures Accounted(Next(c, r, OwnSlot(batch)))
  {
    var n := r.node;
    OwnBlockKeeps(c, n, batch);
    assert n.pool == Drained(n.pool) + Undrained(n.pool);
    forall e | e in batch
      ensures e in r.submitted
    {
      assert e in multiset(batch);
      assert e in Drained(n.pool);
    }
    forall e | e in r.submitted
      ensures e.nonce < QuotedNonce(Produced(c, n, batch), e.signer)
    {
      QuoteAfterOwn(c, n, batch, e.signer);
    }
  }

  lemma QuoteAfterPeer(c: Crypto, n: Node, b: Block, a: AccountId32)
    requires HonestQueue(c, n.rt, n.pool) && RunsInFull(c, n.rt, b)
    ensures QuotedNonce(Received(c, n, b), a) >= QuotedNonce(n, a)
  {
    PeerBlockKeeps(c, n, b);
    var after := Received(c, n, b).rt.nonces;
    var f := (e: Extrinsic) => Ahead(e, after);
    var v := NonceOf(after, a);
    FilterBySigner(n.pool, f, a);
    AllBySigner(n.pool, a);
    assert CountsFrom(BySigner(n.pool, a), NonceOf(n.rt.nonces, a));
    SurvivorsCount(BySigner(n.pool, a), NonceOf(n.rt.nonces, a), v);
    FilterSame(BySigner(n.pool, a), f, (e: Extrinsic) => e.nonce >= v);
  }

  lemma PeerBlockAccounted(c: Crypto, r: Record, b: Block)
    requires HonestQueue(c, r.node.rt, r.node.pool) && Accounted(r) && Fair(c, r.node, PeerBlock(b))
    ensures Accounted(Next(c, r, PeerBlock(b)))
  {
    if RunsInFull(c, r.node.rt, b) {
      FullBlockAccounted(c, r, b);
    } else {
      RejectedKeeps(c, r.node, b);
      Untailed(r.accepted);
      Untailed(r.carried);
    }
  }

  lemma FullBlockAccounted(c: Crypto, r: Record, b: Block)
    requires HonestQueue(c, r.node.rt, r.node.pool) && Accounted(r) && RunsInFull(c, r.node.rt, b)
    ensures Accounted(Next(c, r, PeerBlock(b)))
  {
    var n := r.node;
    forall e | e in Received(c, n, b).pool
      ensures e in r.submitted
    {
      FilterIn(n.pool, x => !Named(b.extrinsics, x), e);
    }
    forall e | e in r.submitted
      ensures e.nonce < QuotedNonce(Received(c, n, b), e.signer)
    {
      QuoteAfterPeer(c, n, b, e.signer);
    }
  }

  lemma {:induction false} RunAccounted(c: Crypto, n: Node, evs: seq<Event>, rs: seq<Record>, i: nat)
    requires n.pool == [] && Runs(c, n, evs, rs) && i < |rs|
    ensures Accounted(rs[i])
  {
    if i > 0 {
      RunAccounted(c, n, evs, rs, i - 1);
      RunInOrder(c, n, evs, rs, i - 1);
      match evs[i - 1]
      case Submit(e) => SubmitAccounted(c, rs[i - 1], e);
      case OwnSlot(batch) => OwnSlotAccounted(c, rs[i - 1], batch);
      case PeerBlock(b) => PeerBlockAccounted(c, rs[i - 1], b);
    }
  }

  /** No two accepted extrinsics have one signer and nonce. */
  lemma AcceptedDistinct(m: map<AccountId32, U32>, acc: seq<Extrinsic>, after: map<AccountId32, U32>, j: nat, k: nat)
    requires Follows(m, acc, after) && j < k < |acc|
    ensures !SameId(acc[j], acc[k])
  {
    if acc[j].signer == acc[k].signer {
      NthOfSigner(acc, j);
      NthOfSigner(acc, k);
      PrefixCounts(acc, j, k);
      assert CountsFrom(BySigner(acc, acc[j].signer), NonceOf(m, acc[j].signer));
    }
  }

  lemma {:induction false} DistinctOnce(xs: seq<Extrinsic>, e: Extrinsic)
    requires forall j, k :: 0 <= j < k < |xs| ==> !SameId(xs[j], xs[k])
    ensures multiset(xs)[e] == if e in xs then 1 else 0
  {
    if xs != [] {
      var n := |xs| - 1;
      DistinctOnce(xs[..n], e);
      assert xs == xs[..n] + [xs[n]];
      forall j | 0 <= j < n
        ensures xs[j] != xs[n]
      {
        assert !SameId(xs[j], xs[n]) && SameId(xs[n], xs[n]);
      }
    }
  }

  /** A submitted extrinsic is pending if and only if its nonce has not run. */
  lemma PendingExactly(c: Crypto, start: map<AccountId32, U32>, r: Record, e: Extrinsic)
    requires InOrder(c, start, r) && e in r.submitted
    ensures e in r.node.pool <==> !Named(r.accepted, e)
  {
    FollowsCarries(start, r.accepted, r.node.rt.nonces, e.signer, e.nonce);
    assert Named(r.accepted, e) <==> !Ahead(e, r.node.rt.nonces);
    if e in r.node.pool { AheadOfRuntime(r.node.pool, r.node.rt.nonces); }
  }

  /** A different extrinsic of the same signer and nonce ran in its place, and came in a peer's block. */
  ghost predicate Displaced(r: Record, e: Extrinsic) {
    exists f :: f in r.accepted && f in r.carried && SameId(e, f) && f != e
  }

  /** In every reachable state of a node with honest clients and peers the queue is honest, and every
      extrinsic ever submitted is in exactly one of three places: still pending, accepted, once, or displaced
      by another one of the same signer and nonce from a peer's block. When the peers' blocks carry none such,
      it is not pending if and only if it has been accepted itself. */
  lemma NothingLostNothingTwice(c: Crypto, n: Node, evs: seq<Event>, rs: seq<Record>, i: nat, e: Extrinsic)
    requires n.pool == [] && Runs(c, n, evs, rs) && i < |rs| && e in rs[i].submitted
    ensures var r := rs[i];
            && HonestQueue(c, r.node.rt, r.node.pool)
            && (e in r.node.pool <==> !(e in r.accepted || Displaced(r, e)))
            && !(e in r.accepted && Displaced(r, e))
            && multiset(r.accepted)[e] <= 1
            && ((forall f :: f in r.carried && SameId(e, f) ==> f == e) ==> (e !in r.node.pool <==> e in r.accepted))
  {
    var r := rs[i];
    RunInOrder(c, n, evs, rs, i);
    RunAccounted(c, n, evs, rs, i);
    PendingExactly(c, n.rt.nonces, r, e);
    forall j, k | 0 <= j < k < |r.accepted|
      ensures !SameId(r.accepted[j], r.accepted[k])
    {
      AcceptedDistinct(n.rt.nonces, r.accepted, r.node.rt.nonces, j, k);
    }
    DistinctOnce(r.accepted, e);
    RunOrDisplaced(r, e);
  }

  lemma OnlyOneOfId(xs: seq<Extrinsic>, e: Extrinsic, f: Extrinsic)
    requires forall j, k :: 0 <= j < k < |xs| ==> !SameId(xs[j], xs[k])
    requires e in xs && f in xs && SameId(e, f)
    ensures e == f
  {
    var j :| 0 <= j < |xs| && xs[j] == e;
    var k :| 0 <= k < |xs| && xs[k] == f;
    assert j == k;
  }

  lemma RunOrDisplaced(r: Record, e: Extrinsic)
    requires Accounted(r) && e in r.submitted
    requires forall j, k :: 0 <= j < k < |r.accepted| ==> !SameId(r.accepted[j], r.accepted[k])
    ensures Named(r.accepted, e) <==> e in r.accepted || Displaced(r, e)
    ensures !(e in r.accepted && Displaced(r, e))
  {
    if Named(r.accepted, e) {
      var i :| 0 <= i < |r.accepted| && r.accepted[i].signer == e.signer && r.accepted[i].nonce == e.nonce;
      var f := r.accepted[i];
      assert f in r.accepted && SameId(e, f);
    }
    if Displaced(r, e) {
      var f :| f in r.accepted && f in r.carried && SameId(e, f) && f != e;
      if e in r.accepted { OnlyOneOfId(r.accepted, e, f); }
    }
  }
}
