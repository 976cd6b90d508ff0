/** Several nodes in lockstep slots, each on its own database: each slot has one author, whose block reaches
    every other node, as bytes, before the next slot; nodes may restart in between (src/node.rs,
    macros/src/runtime/expand.rs). */
module Network {
  import opened Types
  import opened Scale
  import opened ScaleNumbers
  import opened Storage
  import opened RuntimeSpec
  import opened Nonces
  import opened Batch
  import opened Peers
  import opened Node
  import D = Durability
  import G = GenesisProofs

  datatype Replica = Replica(node: Node, disk: Store)

  /** Runtimes equal up to claims, each with its database in step and past genesis; sorted lists; no two nodes
      with one identifier. */
  ghost predicate InSync(rs: seq<Replica>) {
    && (forall i, j :: 0 <= i < |rs| && 0 <= j < |rs| ==> D.SameLedger(rs[i].node.rt, rs[j].node.rt))
    && (forall i :: 0 <= i < |rs| ==> Sound(rs[i]))
    && (forall i, j :: 0 <= i < j < |rs| ==> rs[i].node.me != rs[j].node.me)
  }

  ghost predicate Sound(r: Replica) {
    D.Synced(r.disk, r.node.rt) && r.node.rt.height > 0 && Peers.Sorted(r.node.peers)
  }

  /** Runtimes equal, claims included. */
  ghost predicate Identical(rs: seq<Replica>) {
    forall i, j :: 0 <= i < |rs| && 0 <= j < |rs| ==> rs[i].node.rt == rs[j].node.rt
  }

  /** Every node knows the same peers. */
  ghost predicate SamePeers(rs: seq<Replica>) {
    forall i, j :: 0 <= i < |rs| && 0 <= j < |rs| ==> multiset(rs[i].node.peers) == multiset(rs[j].node.peers)
  }

  // ---- steps -------------------------------------------------------------------------------------

  /** The start of `run` on a database: load, genesis if due, an empty mempool, itself as only peer. */
  ghost function Started(c: Crypto, dev: Dev, disk: Store, me: PeerId): Replica {
    var g := Genesis(c, dev, Load(disk));
    Replica(Node(g.state, [], [me], me), After(disk, g.log))
  }

  /** A gossiped block: bytes that do not decode are dropped, bytes left over are ignored. */
  ghost function ReceivedBytes(c: Crypto, r: Replica, bytes: Bytes): Replica {
    match DecodeBlock(bytes)
    case Failed => r
    case Parsed(b, _) => Replica(Received(c, r.node, b), After(r.disk, ExecuteBlock(c, r.node.rt, b).log))
  }

  /** How the execution of gossiped bytes ended, if they decoded. */
  ghost function Verdict(c: Crypto, n: Node, bytes: Bytes): Option<Completion> {
    match DecodeBlock(bytes)
    case Failed => None
    case Parsed(b, _) => Some(ExecuteBlock(c, n.rt, b).end)
  }

  ghost function Authored(c: Crypto, r: Replica, batch: seq<Extrinsic>): Replica
    requires r.node.rt.height < U32_MAX
  {
    Replica(Produced(c, r.node, batch), After(r.disk, ExecuteBlock(c, r.node.rt, NextBlock(r.node.rt, batch)).log))
  }

  /** The bytes the author publishes. */
  function Published(n: Node, batch: seq<Extrinsic>): Bytes
    requires n.rt.height < U32_MAX && |batch| <= U32_MAX
  {
    EncodeBlock(NextBlock(n.rt, batch))
  }

  datatype NetEvent =
    | Submit(at: nat, ext: Extrinsic)
    | Reconnect(at: nat, change: Change)
    | Restart(at: nat)
    | Slot(slot: nat, author: nat, batch: seq<Extrinsic>)

  /** Any submission, connection and restart anywhere; a slot only while all know the same peers, with a batch
      the author may build from its own mempool, and with room in the counters. */
  ghost predicate Allowed(rs: seq<Replica>, ev: NetEvent) {
    match ev
    case Submit(i, e) => i < |rs|
    case Reconnect(i, ch) => i < |rs|
    case Restart(i) => i < |rs|
    case Slot(slot, author, batch) =>
      && author < |rs| && SamePeers(rs)
      && IsMySlot(rs[author].node.peers, rs[author].node.me, slot)
      && IsBatch(batch, Drained(rs[author].node.pool), rs[author].node.rt.nonces)
      && rs[author].node.rt.height < U32_MAX && forall k :: 0 <= k < |batch| ==> batch[k].nonce < U32_MAX
  }

  lemma BatchFits(n: Node, batch: seq<Extrinsic>)
    requires IsBatch(batch, Drained(n.pool), n.rt.nonces)
    ensures |batch| <= BLOCK_LIMIT <= U32_MAX
  {
    BatchWithinCandidates(batch, Drained(n.pool), n.rt.nonces);
  }

  ghost function Happens(c: Crypto, dev: Dev, rs: seq<Replica>, ev: NetEvent): (r: seq<Replica>)
    requires Allowed(rs, ev)
    ensures |r| == |rs|
  {
    match ev
    case Submit(i, e) => rs[i := rs[i].(node := Submitted(rs[i].node, e))]
    case Reconnect(i, ch) => rs[i := rs[i].(node := rs[i].node.(peers := Changed(rs[i].node.peers, ch)))]
    case Restart(i) => rs[i := Started(c, dev, rs[i].disk, rs[i].node.me)]
    case Slot(slot, author, batch) =>
      BatchFits(rs[author].node, batch);
      seq(|rs|, i requires 0 <= i < |rs| =>
        if i == author then Authored(c, rs[i], batch)
        else ReceivedBytes(c, rs[i], Published(rs[author].node, batch)))
  }

  // ---- one slot ----------------------------------------------------------------------------------

  lemma {:induction false} LoopReturns(s: State, es: seq<Extrinsic>, rs: seq<DispatchResult>)
    requires |es| == |rs| && forall k :: 0 <= k < |es| ==> es[k].nonce < U32_MAX
    ensures Loop(s, es, rs).end == Returned(Ok)
    ensures Loop(s, es, rs).state.height == s.height
  {
    LoopNonces(s, es, rs);
    if es != [] { LoopReturns(s, es[..|es| - 1], rs[..|es| - 1]); }
  }

  lemma NextBlockReturns(c: Crypto, s: State, batch: seq<Extrinsic>)
    requires s.height < U32_MAX && forall k :: 0 <= k < |batch| ==> batch[k].nonce < U32_MAX
    ensures ExecuteBlock(c, s, NextBlock(s, batch)).end == Returned(Ok)
    ensures ExecuteBlock(c, s, NextBlock(s, batch)).state.height == s.height + 1
  {
    LoopReturns(s.(height := s.height + 1), batch, VerifyBatch(c, batch));
    BlockIsLoop(c, s, NextBlock(s, batch));
  }

  lemma PublishedDecodes(author: Node, batch: seq<Extrinsic>)
    requires author.rt.height < U32_MAX && |batch| <= U32_MAX
    ensures DecodeBlock(Published(author, batch)) == Parsed(NextBlock(author.rt, batch), [])
  {
    var b := NextBlock(author.rt, batch);
    BlockRoundTrip(b, []);
    assert EncodeBlock(b) + [] == EncodeBlock(b);
  }

  /** A peer whose height, nonces and balances are the author's executes, from the bytes it was sent, the very
      block the author executed, does not reject it, and ends with the author's height, nonces and balances;
      and with its whole state if it began with that. */
  lemma DeliveredIntact(c: Crypto, r: Replica, author: Replica, batch: seq<Extrinsic>)
    requires author.node.rt.height < U32_MAX && |batch| <= U32_MAX && D.SameLedger(r.node.rt, author.node.rt)
    requires forall k :: 0 <= k < |batch| ==> batch[k].nonce < U32_MAX
    ensures ReceivedBytes(c, r, Published(author.node, batch)).node ==
            Received(c, r.node, NextBlock(author.node.rt, batch))
    ensures Verdict(c, r.node, Published(author.node, batch)) == Some(Returned(Ok))
    ensures D.SameLedger(ReceivedBytes(c, r, Published(author.node, batch)).node.rt, Authored(c, author, batch).node.rt)
    ensures r.node.rt == author.node.rt ==>
              ReceivedBytes(c, r, Published(author.node, batch)).node.rt == Authored(c, author, batch).node.rt
  {
    PublishedDecodes(author.node, batch);
    NextBlockReturns(c, author.node.rt, batch);
    D.BlockSame(c, r.node.rt, author.node.rt, NextBlock(author.node.rt, batch));
  }

  /** What one node is after a slot, author or not. */
  lemma AfterSlot(c: Crypto, dev: Dev, rs: seq<Replica>, slot: nat, author: nat, batch: seq<Extrinsic>, i: nat)
    requires InSync(rs) && Allowed(rs, Slot(slot, author, batch)) && i < |rs|
    ensures |batch| <= U32_MAX
    ensures var after := Happens(c, dev, rs, Slot(slot, author, batch))[i];
            && after.node.me == rs[i].node.me && after.node.peers == rs[i].node.peers
            && D.SameLedger(after.node.rt, Authored(c, rs[author], batch).node.rt)
            && (rs[i].node.rt == rs[author].node.rt ==> after.node.rt == Authored(c, rs[author], batch).node.rt)
            && Sound(after)
    ensures i != author ==> Verdict(c, rs[i].node, Published(rs[author].node, batch)) == Some(Returned(Ok))
  {
    BatchFits(rs[author].node, batch);
    var b := NextBlock(rs[author].node.rt, batch);
    PublishedDecodes(rs[author].node, batch);
    NextBlockReturns(c, rs[author].node.rt, batch);
    DeliveredIntact(c, rs[i], rs[author], batch);
    D.BlockSynced(c, rs[i].disk, rs[i].node.rt, b);
  }

  lemma OneAuthor(rs: seq<Replica>, slot: nat, author: nat, batch: seq<Extrinsic>, i: nat)
    requires InSync(rs) && Allowed(rs, Slot(slot, author, batch)) && i < |rs|
    ensures IsMySlot(rs[i].node.peers, rs[i].node.me, slot) <==> i == author
  {
    SortedUnique(rs[i].node.peers, rs[author].node.peers);
  }

  /** Every node's list holds the nodes and no one else. */
  ghost predicate AllConnected(rs: seq<Replica>) {
    forall i, p :: 0 <= i < |rs| ==> (p in rs[i].node.peers <==> exists j :: 0 <= j < |rs| && rs[j].node.me == p)
  }

  ghost predicate OnlyAuthor(rs: seq<Replica>, slot: nat, i: int) {
    && 0 <= i < |rs|
    && forall j :: 0 <= j < |rs| ==> (IsMySlot(rs[j].node.peers, rs[j].node.me, slot) <==> j == i)
  }

  lemma SameLists(rs: seq<Replica>, j: nat)
    requires InSync(rs) && SamePeers(rs) && j < |rs|
    ensures rs[j].node.peers == rs[0].node.peers
  {
    SortedUnique(rs[j].node.peers, rs[0].node.peers);
  }

  /** Every slot of a connected network of two or more has one author. */
  lemma SlotHasAuthor(rs: seq<Replica>, slot: nat)
    requires InSync(rs) && SamePeers(rs) && AllConnected(rs) && |rs| >= 2
    ensures exists i :: OnlyAuthor(rs, slot, i)
  {
    var peers := rs[0].node.peers;
    TwoApart(peers, rs[0].node.me, rs[1].node.me);
    SlotsAreTaken(peers, slot);
    var p :| p in peers && IsMySlot(peers, p, slot);
    var i :| 0 <= i < |rs| && rs[i].node.me == p;
    forall j | 0 <= j < |rs|
      ensures IsMySlot(rs[j].node.peers, rs[j].node.me, slot) <==> j == i
    {
      SameLists(rs, j);
    }
    assert OnlyAuthor(rs, slot, i);
  }

  lemma TwoApart(peers: seq<PeerId>, p: PeerId, q: PeerId)
    requires p in peers && q in peers && p != q
    ensures |peers| >= 2
  {}

  /** Replicas that each are sound and all hold the ledger `x` are in sync. */
  lemma AllInSync(rs: seq<Replica>, after: seq<Replica>, x: State)
    requires InSync(rs) && |after| == |rs|
    requires forall i :: 0 <= i < |rs| ==>
               Sound(after[i]) && after[i].node.me == rs[i].node.me && D.SameLedger(after[i].node.rt, x)
    ensures InSync(after)
  {}

  lemma SlotKeeps(c: Crypto, dev: Dev, rs: seq<Replica>, slot: nat, author: nat, batch: seq<Extrinsic>)
    requires InSync(rs) && Allowed(rs, Slot(slot, author, batch))
    ensures InSync(Happens(c, dev, rs, Slot(slot, author, batch)))
    ensures Identical(rs) ==> Identical(Happens(c, dev, rs, Slot(slot, author, batch)))
  {
    var after, x := Happens(c, dev, rs, Slot(slot, author, batch)), Authored(c, rs[author], batch).node.rt;
    forall i | 0 <= i < |rs|
      ensures after[i].node.me == rs[i].node.me && Sound(after[i]) && D.SameLedger(after[i].node.rt, x)
      ensures rs[i].node.rt == rs[author].node.rt ==> after[i].node.rt == x
    {
      AfterSlot(c, dev, rs, slot, author, batch, i);
    }
    AllInSync(rs, after, x);
  }

  /** One slot: the author is the only node that takes the slot to be its own, every other node accepts its
      block, and all are in sync again. */
  lemma SlotAgrees(c: Crypto, dev: Dev, rs: seq<Replica>, slot: nat, author: nat, batch: seq<Extrinsic>)
    requires InSync(rs) && Allowed(rs, Slot(slot, author, batch))
    ensures |batch| <= U32_MAX
    ensures forall i :: 0 <= i < |rs| ==> (IsMySlot(rs[i].node.peers, rs[i].node.me, slot) <==> i == author)
    ensures forall i :: 0 <= i < |rs| && i != author ==>
              Verdict(c, rs[i].node, Published(rs[author].node, batch)) == Some(Returned(Ok))
    ensures InSync(Happens(c, dev, rs, Slot(slot, author, batch)))
    ensures Identical(rs) ==> Identical(Happens(c, dev, rs, Slot(slot, author, batch)))
  {
    BatchFits(rs[author].node, batch);
    forall i | 0 <= i < |rs|
      ensures IsMySlot(rs[i].node.peers, rs[i].node.me, slot) <==> i == author
      ensures i != author ==> Verdict(c, rs[i].node, Published(rs[author].node, batch)) == Some(Returned(Ok))
    {
      OneAuthor(rs, slot, author, batch, i);
      AfterSlot(c, dev, rs, slot, author, batch, i);
    }
    SlotKeeps(c, dev, rs, slot, author, batch);
  }

  // ---- between slots -----------------------------------------------------------------------------

  /** A restart on a database past genesis writes nothing and brings height, nonces and balances back. */
  lemma RestartSound(c: Crypto, dev: Dev, r: Replica)
    requires Sound(r)
    ensures var after := Started(c, dev, r.disk, r.node.me);
            && Sound(after) && after.disk == r.disk && after.node.me == r.node.me
            && D.SameLedger(after.node.rt, r.node.rt) && D.SubMap(after.node.rt.claims, r.node.rt.claims)
  {
    D.NothingWritten(r.disk);
  }

  /** One replica may change in what the others do not see. */
  lemma OneChanged(rs: seq<Replica>, at: nat, r: Replica)
    requires InSync(rs) && at < |rs| && Sound(r) && r.node.me == rs[at].node.me
    requires D.SameLedger(r.node.rt, rs[at].node.rt)
    ensures InSync(rs[at := r])
    ensures Identical(rs) && r.node.rt == rs[at].node.rt ==> Identical(rs[at := r])
  {
    AllInSync(rs, rs[at := r], rs[at].node.rt);
  }

  lemma QuietAgrees(c: Crypto, dev: Dev, rs: seq<Replica>, ev: NetEvent)
    requires InSync(rs) && Allowed(rs, ev) && !ev.Slot?
    ensures InSync(Happens(c, dev, rs, ev))
    ensures Identical(rs) && !ev.Restart? ==> Identical(Happens(c, dev, rs, ev))
  {
    var r := rs[ev.at];
    match ev
    case Submit(i, e) =>
      OneChanged(rs, i, r.(node := Submitted(r.node, e)));
    case Reconnect(i, ch) =>
      ChangedExactly(r.node.peers, ch);
      OneChanged(rs, i, r.(node := r.node.(peers := Changed(r.node.peers, ch))));
    case Restart(i) =>
      RestartSound(c, dev, r);
      OneChanged(rs, i, Started(c, dev, r.disk, r.node.me));
  }

  // ---- whole runs --------------------------------------------------------------------------------

  ghost predicate NetRuns(c: Crypto, dev: Dev, rs: seq<Replica>, evs: seq<NetEvent>, states: seq<seq<Replica>>) {
    && |states| == |evs| + 1 && states[0] == rs
    && forall i :: 0 <= i < |evs| ==> Allowed(states[i], evs[i]) && states[i + 1] == Happens(c, dev, states[i], evs[i])
  }

  /** Replicas never diverge: whatever is submitted where, however connections come and go between slots,
      whichever nodes restart between slots, and in whatever order the authors' hash maps yield signers, all
      heights, nonces and balances are equal in every reachable state and no node ever rejects a block; until
      the first restart the claims are equal as well. */
  lemma {:induction false} ReplicasAgree(c: Crypto, dev: Dev, rs: seq<Replica>, evs: seq<NetEvent>,
                                         states: seq<seq<Replica>>, i: nat)
    requires InSync(rs) && NetRuns(c, dev, rs, evs, states) && i < |states|
    ensures |states[i]| == |rs| && InSync(states[i])
    ensures Identical(rs) && (forall j :: 0 <= j < i ==> !evs[j].Restart?) ==> Identical(states[i])
    ensures i > 0 && evs[i - 1].Slot? ==>
              var before, ev := states[i - 1], evs[i - 1];
              && |ev.batch| <= U32_MAX
              && forall j :: 0 <= j < |rs| && j != ev.author ==>
                   Verdict(c, before[j].node, Published(before[ev.author].node, ev.batch)) == Some(Returned(Ok))
  {
    if i > 0 {
      ReplicasAgree(c, dev, rs, evs, states, i - 1);
      if evs[i - 1].Slot? {
        SlotAgrees(c, dev, states[i - 1], evs[i - 1].slot, evs[i - 1].author, evs[i - 1].batch);
      } else {
        QuietAgrees(c, dev, states[i - 1], evs[i - 1]);
      }
    }
  }

  /** A database on which genesis has not completed, whatever earlier attempts left, or has just completed. */
  ghost predicate Fresh(dev: Dev, disk: Store) { G.Unborn(dev, disk) || disk == G.Born(dev) }

  lemma StartedBorn(c: Crypto, dev: Dev, disk: Store, me: PeerId)
    requires Fresh(dev, disk)
    ensures Started(c, dev, disk, me) == Replica(Node(Load(G.Born(dev)), [], [me], me), G.Born(dev))
  {
    if G.Unborn(dev, disk) {
      G.FirstLog(c, dev, disk, []);
      G.GenesisLog(c, dev, Load(disk));
    } else {
      D.NothingWritten(disk);
    }
  }

  /** Nodes started on empty databases, or on such as crashed attempts at genesis left, are in sync, with equal
      runtimes. */
  lemma StartedInSync(c: Crypto, dev: Dev, disks: seq<Store>, ids: seq<PeerId>)
    requires |disks| == |ids| && forall i :: 0 <= i < |disks| ==> Fresh(dev, disks[i])
    requires forall i, j :: 0 <= i < j < |ids| ==> ids[i] != ids[j]
    ensures var rs := seq(|ids|, i requires 0 <= i < |ids| => Started(c, dev, disks[i], ids[i]));
            InSync(rs) && Identical(rs)
  {
    var rs := seq(|ids|, i requires 0 <= i < |ids| => Started(c, dev, disks[i], ids[i]));
    forall i | 0 <= i < |ids|
      ensures rs[i].node.rt == Load(G.Born(dev)) && rs[i].node.me == ids[i] && Sound(rs[i])
    {
      StartedBorn(c, dev, disks[i], ids[i]);
    }
  }
}
