/** The node as an object: the arms of the event loop, block production and the nonce query, each proved
    against the steps of Node (src/node.rs). */
module NodeImpl {
  import opened Types
  import Scale
  import opened ScaleNumbers
  import R = RuntimeSpec
  import opened Batch
  import M = Mempool
  import P = Peers
  import N = Node
  import Net = Network
  import D = Durability
  import Nonces
  import opened Storage
  import opened StorageKeys
  import opened Pallets
  import opened RuntimeImpl

  /** How many of the pending extrinsics the account signed. */
  method CountFrom(pool: seq<Extrinsic>, account: AccountId32) returns (count: nat)
    ensures count == |R.BySigner(pool, account)|
  {
    count := 0;
    var i := 0;
    while i < |pool|
      invariant 0 <= i <= |pool| && count == |R.BySigner(pool[..i], account)|
    {
      R.BySignerSnoc(pool[..i], pool[i], account);
      assert pool[..i + 1] == pool[..i] + [pool[i]];
      if pool[i].signer == account { count := count + 1; }
      i := i + 1;
    }
    assert pool[..i] == pool;
  }

  class NodeApp {
    const runtime: Runtime
    const mempool: M.Mempool<Extrinsic>
    var peers: seq<P.PeerId>
    const me: P.PeerId

    ghost predicate Valid()
      reads runtime.store
    {
      runtime.Valid() && mempool.maxCapacity == None && mempool.blockLimit == Some(N.BLOCK_LIMIT)
    }

    ghost function View(): N.Node
      reads this, runtime.system, runtime.balances, runtime.poe, mempool
    {
      N.Node(runtime.View(), mempool.pending, peers, me)
    }

    constructor Start(runtime: Runtime, me: P.PeerId)
      requires runtime.Valid()
      ensures Valid() && this.runtime == runtime && fresh(mempool)
      ensures View() == N.Node(runtime.View(), [], [me], me)
    {
      this.runtime := runtime;
      mempool := new M.Mempool<Extrinsic>.WithBlockLimit(N.BLOCK_LIMIT);
      peers := [me];
      this.me := me;
    }

    /** The start of `run`: the runtime is loaded from the store, genesis is applied if due, and the node
        begins with an empty mempool and itself as its only peer. */
    static method Boot(c: R.Crypto, dev: R.Dev, store: KvStore, me: P.PeerId) returns (node: NodeApp, end: R.Completion)
      requires store.Valid()
      modifies store
      ensures node.Valid() && node.runtime.store == store && fresh(node)
      ensures exists s :: LoadedState(old(store.data), s)
                && node.View() == N.Node(R.Genesis(c, dev, s).state, [], [me], me)
                && end == R.Genesis(c, dev, s).end
                && store.log == old(store.log) + BytesOf(R.Genesis(c, dev, s).log)
      ensures forall st :: Represents(old(store.data), st) ==>
                var g := R.Genesis(c, dev, Load(st));
                && node.View() == N.Node(g.state, [], [me], me) && end == g.end
                && store.log == old(store.log) + BytesOf(g.log)
    {
      var rt := new Runtime.New(store);
      ghost var loaded := rt.View();
      assert LoadedState(old(store.data), loaded);
      end := rt.MaybeApplyGenesis(c, dev);
      node := new NodeApp.Start(rt, me);
    }

    /** `nonce_handler`, wrapping as a `u32` sum does. */
    method QuoteNonce(account: AccountId32) returns (n: U32)
      ensures n == N.QuotedNonce(View(), account) % (U32_MAX + 1)
    {
      var base := runtime.system.Nonce(account);
      var count := CountFrom(mempool.pending, account);
      n := (base + count) % (U32_MAX + 1);
    }

    method OnExtrinsic(e: Extrinsic)
      requires Valid()
      modifies mempool
      ensures Valid() && View() == N.Submitted(old(View()), e)
    {
      var _ := mempool.Submit(e);
    }

    /** The pending extrinsics that the block names go if the block was not rejected; if it was, all stay. */
    method OnPeerBlock(c: R.Crypto, b: Block) returns (end: R.Completion)
      requires Valid()
      modifies mempool, runtime.system, runtime.balances, runtime.poe, runtime.store
      ensures Valid() && View() == N.Received(c, old(View()), b)
      ensures end == R.ExecuteBlock(c, old(View()).rt, b).end
      ensures end == R.Returned(Ok) ==>
                forall e :: e in mempool.pending <==>
                  e in old(mempool.pending) && !exists i :: 0 <= i < |b.extrinsics| && N.SameId(b.extrinsics[i], e)
      ensures end != R.Returned(Ok) ==> mempool.pending == old(mempool.pending)
    {
      var included := b.extrinsics;
      end := runtime.ExecuteBlock(c, b);
      if end == R.Returned(Ok) {
        mempool.Retain(e => !N.Named(included, e));
        N.FilterSame(old(mempool.pending), e => !N.Named(included, e), e => !N.Named(b.extrinsics, e));
        EvictsNamed(old(mempool.pending), b.extrinsics);
      }
    }

    /** A gossiped block message: decoded and handed to the loop; bytes that do not decode are dropped. */
    method OnBlockMessage(c: R.Crypto, bytes: Bytes) returns (end: Option<R.Completion>)
      requires Valid()
      modifies mempool, runtime.system, runtime.balances, runtime.poe, runtime.store
      ensures Valid()
      ensures end == Net.Verdict(c, old(View()), bytes)
      ensures end.None? ==> View() == old(View())
      ensures end.Some? ==> View() == N.Received(c, old(View()), Scale.DecodeBlock(bytes).value)
    {
      match Scale.DecodeBlock(bytes)
      case Failed => end := None;
      case Parsed(b, _) =>
        var e := OnPeerBlock(c, b);
        end := Some(e);
    }

    method OnConnected(p: P.PeerId)
      requires Valid()
      modifies `peers
      ensures Valid() && peers == P.Changed(old(peers), P.Connected(p))
    {
      peers := P.Sort(peers + [p]);
    }

    method OnDisconnected(p: P.PeerId)
      requires Valid()
      modifies `peers
      ensures Valid() && peers == P.Changed(old(peers), P.Disconnected(p))
    {
      peers := M.Filter(peers, q => q != p);
    }

    /** The slot ticker: silent unless this node, with company, is the author of the slot. Then it sends the very
        block it executed, if that went through. */
    method OnTick(c: R.Crypto, slot: nat) returns (sent: Option<Bytes>, ghost batch: seq<Extrinsic>)
      requires Valid()
      modifies mempool, runtime.system, runtime.balances, runtime.poe, runtime.store
      ensures Valid()
      ensures var mine := |peers| > 1 && peers[slot % |peers|] == me;
              && mine == P.IsMySlot(peers, me, slot)
              && (!mine ==> sent == None && View() == old(View()))
              && (mine ==> IsBatch(batch, N.Drained(old(View()).pool), old(View()).rt.nonces)
                           && View() == N.Produced(c, old(View()), batch)
                           && Sends(c, old(View()), batch, sent))
    {
      sent, batch := None, [];
      if |peers| > 1 && peers[slot % |peers|] == me {
        sent, batch := ProduceBlock(c);
      }
    }

    method ProduceBlock(c: R.Crypto) returns (sent: Option<Bytes>, batch: seq<Extrinsic>)
      requires Valid()
      modifies mempool, runtime.system, runtime.balances, runtime.poe, runtime.store
      ensures Valid()
      ensures IsBatch(batch, old(mempool.pending)[..M.Least(3, |old(mempool.pending)|)], old(View()).rt.nonces)
      ensures mempool.pending == old(mempool.pending)[M.Least(3, |old(mempool.pending)|)..]
      ensures View() == N.Produced(c, old(View()), batch)
      ensures Sends(c, old(View()), batch, sent)
    {
      ghost var before := View();
      var limit := if mempool.blockLimit.Some? then mempool.blockLimit.value else 10;
      var candidates := mempool.DrainForBlock(limit);
      batch := BuildBatch(candidates, runtime.system.nonces);
      BatchWithinCandidates(batch, candidates, runtime.system.nonces);
      sent := Seal(c, batch);
      SealedSends(c, before, batch, sent, runtime.View());
    }

    /** Numbers the block, encodes it, executes it, and hands out its bytes if it went through. */
    method Seal(c: R.Crypto, batch: seq<Extrinsic>) returns (sent: Option<Bytes>)
      requires Valid() && |batch| <= U32_MAX
      modifies runtime.system, runtime.balances, runtime.poe, runtime.store
      ensures Valid()
      ensures Sealed(c, old(runtime.View()), batch, sent, runtime.View())
    {
      if runtime.system.blockNumber == U32_MAX { return None; }
      var block := Block(Header(runtime.system.blockNumber + 1), batch);
      var encoded := Scale.EncodeBlock(block);
      var end := runtime.ExecuteBlock(c, block);
      sent := if end == R.Returned(Ok) then Some(encoded) else None;
    }
  }

  /** Without a next block number nothing happens; else the block is executed, and its bytes go out if it ended in
      Ok. */
  ghost predicate Sealed(c: R.Crypto, s: State, batch: seq<Extrinsic>, sent: Option<Bytes>, after: State)
    requires |batch| <= U32_MAX
  {
    if s.height == U32_MAX then sent == None && after == s
    else
      var b := Block(Header(s.height + 1), batch);
      var x := R.ExecuteBlock(c, s, b);
      after == x.state && sent == if x.end == R.Returned(Ok) then Some(Scale.EncodeBlock(b)) else None
  }

  lemma SealedSends(c: R.Crypto, n: N.Node, batch: seq<Extrinsic>, sent: Option<Bytes>, after: State)
    requires |batch| <= U32_MAX && Sealed(c, n.rt, batch, sent, after)
    ensures Sends(c, n, batch, sent)
  {
    if sent.Some? { Net.PublishedDecodes(n, batch); }
  }

  /** A node in state `n` that builds `batch` sends bytes if and only if there is a next block number and the block
      ends in Ok; and these bytes decode to the very block it executed. */
  ghost predicate Sends(c: R.Crypto, n: N.Node, batch: seq<Extrinsic>, sent: Option<Bytes>) {
    && |batch| <= U32_MAX
    && (sent.Some? <==>
          n.rt.height < U32_MAX && R.ExecuteBlock(c, n.rt, Block(Header(n.rt.height + 1), batch)).end == R.Returned(Ok))
    && (sent.Some? ==>
          && Scale.DecodeBlock(sent.value) == Parsed(Block(Header(n.rt.height + 1), batch), [])
          && sent.value == Net.Published(n, batch))
  }

  lemma EvictsNamed(pool: seq<Extrinsic>, es: seq<Extrinsic>)
    ensures forall e :: e in N.Evict(pool, es) <==>
              e in pool && !exists i :: 0 <= i < |es| && N.SameId(es[i], e)
  {
    forall e
      ensures e in N.Evict(pool, es) <==> e in pool && !exists i :: 0 <= i < |es| && N.SameId(es[i], e)
    {
      N.FilterIn(pool, x => !N.Named(es, x), e);
      if N.Named(es, e) {
        var i :| 0 <= i < |es| && es[i].signer == e.signer && es[i].nonce == e.nonce;
        assert N.SameId(es[i], e);
      }
    }
  }

  /** What one node's object sends another's accepts: the block that the first executed, with its ledger. */
  lemma SentIsAccepted(c: R.Crypto, author: Net.Replica, r: Net.Replica, batch: seq<Extrinsic>, sent: Bytes)
    requires Sends(c, author.node, batch, Some(sent)) && D.SameLedger(r.node.rt, author.node.rt)
    requires forall k :: 0 <= k < |batch| ==> batch[k].nonce < U32_MAX
    ensures Net.Verdict(c, r.node, sent) == Some(R.Returned(Ok))
    ensures D.SameLedger(Net.ReceivedBytes(c, r, sent).node.rt, Net.Authored(c, author, batch).node.rt)
  {
    Net.DeliveredIntact(c, r, author, batch);
  }

  /** Each signer of `xs` is mapped to its extrinsics, in order. */
  ghost predicate GroupsOf(bySigner: map<AccountId32, seq<Extrinsic>>, xs: seq<Extrinsic>) {
    forall a :: R.BySigner(xs, a) == if a in bySigner then bySigner[a] else []
  }

  lemma GroupsNext(bySigner: map<AccountId32, seq<Extrinsic>>, xs: seq<Extrinsic>, i: nat,
                   after: map<AccountId32, seq<Extrinsic>>)
    requires i < |xs| && GroupsOf(bySigner, xs[..i])
    requires var e := xs[i];
             after == bySigner[e.signer := (if e.signer in bySigner then bySigner[e.signer] else []) + [e]]
    ensures GroupsOf(after, xs[..i + 1])
  {
    var init, e := xs[..i], xs[i];
    assert xs[..i + 1] == init + [e];
    forall a
      ensures R.BySigner(init + [e], a) == if a in after then after[a] else []
    {
      R.BySignerSnoc(init, e, a);
    }
  }

  lemma GroupsWhole(bySigner: map<AccountId32, seq<Extrinsic>>, xs: seq<Extrinsic>, i: nat)
    requires i == |xs| && GroupsOf(bySigner, xs[..i])
    ensures forall a :: R.BySigner(xs, a) == if a in bySigner then bySigner[a] else []
  {
    assert xs[..i] == xs;
  }

  /** The map from signers to their candidates, in queue order. */
  method GroupBySigner(candidates: seq<Extrinsic>) returns (bySigner: map<AccountId32, seq<Extrinsic>>)
    ensures forall a :: a in bySigner ==> bySigner[a] == R.BySigner(candidates, a)
    ensures forall a :: a !in bySigner ==> R.BySigner(candidates, a) == []
  {
    bySigner := map[];
    var i := 0;
    while i < |candidates|
      invariant 0 <= i <= |candidates| && GroupsOf(bySigner, candidates[..i])
    {
      var e := candidates[i];
      var next := bySigner[e.signer := (if e.signer in bySigner then bySigner[e.signer] else []) + [e]];
      GroupsNext(bySigner, candidates, i, next);
      bySigner := next;
      i := i + 1;
    }
    GroupsWhole(bySigner, candidates, i);
  }

  /** The gap-free run of one signer: push while the nonce is the expected one, then break. */
  method TakeRun(txs: seq<Extrinsic>, nonce: U32) returns (taken: seq<Extrinsic>)
    ensures taken == SignerRun(txs, nonce)
  {
    taken := [];
    var expected: U32 := nonce;
    var i := 0;
    while i < |txs|
      invariant 0 <= i <= |txs| && taken + SignerRun(txs[i..], expected) == SignerRun(txs, nonce)
    {
      var tx := txs[i];
      if tx.nonce != expected { break; }
      var next := (expected + 1) % (U32_MAX + 1);
      assert txs[i..][1..] == txs[i + 1..];
      assert taken + SignerRun(txs[i..], expected) == taken + [tx] + SignerRun(txs[i + 1..], next);
      taken := taken + [tx];
      expected := next;
      i := i + 1;
    }
    assert i == |txs| ==> txs[i..] == [];
  }

  /** The result holds the runs of the signers already done and nothing of the others. */
  ghost predicate Gathered(result: seq<Extrinsic>, candidates: seq<Extrinsic>, nonces: map<AccountId32, U32>,
                           done: set<AccountId32>)
  {
    forall a :: R.BySigner(result, a) == if a in done then Group(candidates, nonces, a) else []
  }

  lemma GatherOne(result: seq<Extrinsic>, candidates: seq<Extrinsic>, nonces: map<AccountId32, U32>,
                  done: set<AccountId32>, signer: AccountId32)
    requires Gathered(result, candidates, nonces, done) && signer !in done
    ensures Gathered(result + Group(candidates, nonces, signer), candidates, nonces, done + {signer})
  {
    forall a
      ensures R.BySigner(result + Group(candidates, nonces, signer), a) ==
              if a in done + {signer} then Group(candidates, nonces, a) else []
    {
      GatherAt(result, candidates, nonces, done, signer, a);
    }
  }

  lemma GatherAt(result: seq<Extrinsic>, candidates: seq<Extrinsic>, nonces: map<AccountId32, U32>,
                 done: set<AccountId32>, signer: AccountId32, a: AccountId32)
    requires Gathered(result, candidates, nonces, done) && signer !in done
    ensures R.BySigner(result + Group(candidates, nonces, signer), a) ==
            if a in done + {signer} then Group(candidates, nonces, a) else []
  {
    R.BySignerConcat(result, Group(candidates, nonces, signer), a);
    GroupIsOneSigner(candidates, nonces, signer, a);
  }

  /** Signers come in whatever order the hash map has; the result is a batch in every case. */
  method BuildBatch(candidates: seq<Extrinsic>, nonces: map<AccountId32, U32>) returns (result: seq<Extrinsic>)
    ensures IsBatch(result, candidates, nonces)
  {
    var bySigner := GroupBySigner(candidates);
    result := [];
    var rest := bySigner.Keys;
    ghost var done: set<AccountId32> := {};
    while rest != {}
      invariant done + rest == bySigner.Keys && done !! rest
      invariant Gathered(result, candidates, nonces, done)
      decreases rest
    {
      var signer :| signer in rest;
      assert signer in bySigner;
      var txs := SortByNonce(bySigner[signer]);
      var taken := TakeRun(txs, NonceOf(nonces, signer));
      GatherOne(result, candidates, nonces, done, signer);
      result := result + taken;
      rest := rest - {signer};
      done := done + {signer};
    }
  }

  lemma GroupIsOneSigner(candidates: seq<Extrinsic>, nonces: map<AccountId32, U32>, s: AccountId32, a: AccountId32)
    ensures R.BySigner(Group(candidates, nonces, s), a) == if a == s then Group(candidates, nonces, s) else []
  {
    var g := Group(candidates, nonces, s);
    GroupWithin(candidates, nonces, s);
    Nonces.AllBySigner(candidates, s);
    forall i | 0 <= i < |g|
      ensures g[i].signer == s
    {
      assert g[i] in multiset(g);
      assert g[i] in R.BySigner(candidates, s);
    }
    OneSigner(g, s, a);
  }

  lemma {:induction false} OneSigner(xs: seq<Extrinsic>, s: AccountId32, a: AccountId32)
    requires forall i :: 0 <= i < |xs| ==> xs[i].signer == s
    ensures R.BySigner(xs, a) == if a == s then xs else []
  {
    if xs != [] { OneSigner(xs[..|xs| - 1], s, a); }
  }
}
