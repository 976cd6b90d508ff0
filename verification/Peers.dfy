/** The peer list and round-robin authorship (src/node.rs). */
module Peers {
  import opened Types
  import opened Mempool
  import S = Sorting

  /** Peer identifiers, of which only their total order matters. */
  type PeerId = int

  function Itself(p: PeerId): int { p }

  /** `peers.sort()`. */
  function Sort(xs: seq<PeerId>): seq<PeerId> { S.SortBy(xs, Itself) }

  predicate Sorted(xs: seq<PeerId>) { S.Sorted(xs, Itself) }

  lemma SortSorts(xs: seq<PeerId>)
    ensures Sorted(Sort(xs)) && multiset(Sort(xs)) == multiset(xs)
  {
    S.SortSorts(xs, Itself);
  }

  lemma SameLast(xs: seq<PeerId>, ys: seq<PeerId>)
    requires Sorted(xs) && Sorted(ys) && multiset(xs) == multiset(ys) && xs != []
    ensures |xs| == |ys| && xs[|xs| - 1] == ys[|ys| - 1]
  {
    assert |xs| == |multiset(xs)| && |ys| == |multiset(ys)|;
    assert xs[|xs| - 1] in multiset(ys) && ys[|ys| - 1] in multiset(xs);
  }

  /** A sorted list is determined by what it contains. */
  lemma {:induction false} SortedUnique(xs: seq<PeerId>, ys: seq<PeerId>)
    requires Sorted(xs) && Sorted(ys) && multiset(xs) == multiset(ys)
    ensures xs == ys
  {
    if xs == [] {
      assert multiset(ys) == multiset{};
      assert |ys| == |multiset(ys)|;
    } else {
      SameLast(xs, ys);
      S.MultisetSnoc(xs);
      S.MultisetSnoc(ys);
      SortedUnique(xs[..|xs| - 1], ys[..|ys| - 1]);
      SameParts(xs, ys);
    }
  }

  lemma SameParts(xs: seq<PeerId>, ys: seq<PeerId>)
    requires xs != [] && ys != []
    requires xs[..|xs| - 1] == ys[..|ys| - 1] && xs[|xs| - 1] == ys[|ys| - 1]
    ensures xs == ys
  {
    assert xs == xs[..|xs| - 1] + [xs[|xs| - 1]];
    assert ys == ys[..|ys| - 1] + [ys[|ys| - 1]];
  }

  // ---- connections -------------------------------------------------------------------------------

  datatype Change = Connected(peer: PeerId) | Disconnected(peer: PeerId)

  function Changed(peers: seq<PeerId>, ch: Change): seq<PeerId> {
    match ch
    case Connected(p) => Sort(peers + [p])
    case Disconnected(p) => Filter(peers, q => q != p)
  }

  /** The list of a node that starts with itself. */
  function ListAfter(me: PeerId, changes: seq<Change>): seq<PeerId> {
    if changes == [] then [me] else Changed(ListAfter(me, changes[..|changes| - 1]), changes[|changes| - 1])
  }

  lemma {:induction false} FilterDrops(xs: seq<PeerId>, p: PeerId, keep: PeerId -> bool)
    requires forall q :: keep(q) <==> q != p
    ensures multiset(Filter(xs, keep)) == multiset(xs)[p := 0]
  {
    if xs != [] {
      var init, last := xs[..|xs| - 1], xs[|xs| - 1];
      assert xs == init + [last];
      FilterDrops(init, p, keep);
      FilterSnoc(init, last, keep);
    }
  }

  lemma {:induction false} FilterKeeps(xs: seq<PeerId>, keep: PeerId -> bool)
    requires Sorted(xs)
    ensures Sorted(Filter(xs, keep)) && forall i :: 0 <= i < |Filter(xs, keep)| ==> Filter(xs, keep)[i] in xs
  {
    if xs != [] {
      var init, last := xs[..|xs| - 1], xs[|xs| - 1];
      assert xs == init + [last];
      FilterKeeps(init, keep);
      FilterSnoc(init, last, keep);
      var ys := Filter(init, keep);
      forall i | 0 <= i < |ys|
        ensures ys[i] <= last && ys[i] in xs
      {
        assert ys[i] in init;
      }
      S.SortedSnoc(ys, last, Itself);
    }
  }

  /** Connecting adds one occurrence, disconnecting drops them all; the list stays sorted. */
  lemma ChangedExactly(peers: seq<PeerId>, ch: Change)
    requires Sorted(peers)
    ensures Sorted(Changed(peers, ch))
    ensures multiset(Changed(peers, ch)) ==
            match ch
            case Connected(p) => multiset(peers) + multiset{p}
            case Disconnected(p) => multiset(peers)[p := 0]
  {
    match ch
    case Connected(p) => SortSorts(peers + [p]);
    case Disconnected(p) =>
      var keep := (q: PeerId) => q != p;
      FilterKeeps(peers, keep);
      FilterDrops(peers, p, keep);
  }

  /** Unless the node is told that it lost itself, its list is always sorted and holds it. */
  lemma {:induction false} ListKept(me: PeerId, changes: seq<Change>)
    requires Disconnected(me) !in changes
    ensures Sorted(ListAfter(me, changes)) && me in ListAfter(me, changes)
  {
    if changes != [] {
      var n := |changes| - 1;
      ListKept(me, changes[..n]);
      var peers := ListAfter(me, changes[..n]);
      ChangedExactly(peers, changes[n]);
      assert me in multiset(peers);
      assert me in multiset(Changed(peers, changes[n]));
    }
  }

  // ---- authorship --------------------------------------------------------------------------------

  function Author(peers: seq<PeerId>, slot: nat): PeerId
    requires peers != []
  {
    peers[slot % |peers|]
  }

  predicate IsMySlot(peers: seq<PeerId>, me: PeerId, slot: nat) { |peers| > 1 && Author(peers, slot) == me }

  /** With company, some peer has every slot; alone, none has any. */
  lemma SlotsAreTaken(peers: seq<PeerId>, slot: nat)
    ensures |peers| >= 2 <==> exists p :: p in peers && IsMySlot(peers, p, slot)
    ensures |peers| < 2 ==> forall p :: !IsMySlot(peers, p, slot)
  {
    if |peers| >= 2 {
      var p := Author(peers, slot);
      assert p in peers && IsMySlot(peers, p, slot);
    }
  }

  /** The author of a slot is the entry at the slot's remainder by the length of the list. */
  lemma AuthorByRemainder(peers: seq<PeerId>, q: nat, r: nat)
    requires r < |peers|
    ensures Author(peers, q * |peers| + r) == peers[r]
  {
    DivMod(q, |peers|, r);
  }

  /** Nodes that know the same peers, in whatever order they met them, name the same author in every slot. */
  lemma AuthorsAgree(me: PeerId, mine: seq<Change>, you: PeerId, yours: seq<Change>, slot: nat)
    requires Disconnected(me) !in mine && Disconnected(you) !in yours
    requires multiset(ListAfter(me, mine)) == multiset(ListAfter(you, yours))
    ensures ListAfter(me, mine) == ListAfter(you, yours) != []
    ensures Author(ListAfter(me, mine), slot) == Author(ListAfter(you, yours), slot)
  {
    ListKept(me, mine);
    ListKept(you, yours);
    SortedUnique(ListAfter(me, mine), ListAfter(you, yours));
  }

  /** The authors of as many consecutive slots as there are entries in the list. */
  function Window(peers: seq<PeerId>, start: nat): (w: seq<PeerId>)
    requires peers != []
    ensures |w| == |peers|
  {
    seq(|peers|, i requires 0 <= i < |peers| => Author(peers, start + i))
  }

  lemma Wraps(start: nat, i: nat, n: nat)
    requires i < n
    ensures (start + i) % n == if start % n + i < n then start % n + i else start % n + i - n
  {
    var q, k := start / n, start % n;
    assert start == q * n + k;
    if k + i < n {
      DivMod(q, n, k + i);
    } else {
      assert q * n + k + i == (q + 1) * n + (k + i - n);
      DivMod(q + 1, n, k + i - n);
    }
  }

  lemma WindowAt(peers: seq<PeerId>, start: nat, i: nat)
    requires i < |peers|
    ensures var n, k := |peers|, start % |peers|;
            Window(peers, start)[i] == if k + i < n then peers[k + i] else peers[k + i - n]
  {
    Wraps(start, i, |peers|);
    assert Window(peers, start)[i] == Author(peers, start + i);
  }

  /** Fair turns: from any slot on, |peers| consecutive slots give every peer exactly as many turns as it has
      entries, so exactly one when the entries are distinct. */
  lemma FairTurns(peers: seq<PeerId>, start: nat)
    requires peers != []
    ensures multiset(Window(peers, start)) == multiset(peers)
    ensures (forall i, j :: 0 <= i < j < |peers| ==> peers[i] != peers[j]) ==>
              forall p :: p in peers ==> multiset(Window(peers, start))[p] == 1
  {
    var n := |peers|;
    var k := start % n;
    forall i | 0 <= i < n
      ensures Window(peers, start)[i] == (peers[k..] + peers[..k])[i]
    {
      WindowAt(peers, start, i);
    }
    assert Window(peers, start) == peers[k..] + peers[..k];
    assert peers == peers[..k] + peers[k..];
    if forall i, j :: 0 <= i < j < n ==> peers[i] != peers[j] {
      forall p | p in peers
        ensures multiset(peers)[p] == 1
      {
        OnceEach(peers, p);
      }
    }
  }

  lemma {:induction false} OnceEach(xs: seq<PeerId>, p: PeerId)
    requires forall i, j :: 0 <= i < j < |xs| ==> xs[i] != xs[j]
    ensures multiset(xs)[p] == if p in xs then 1 else 0
  {
    if xs != [] {
      OnceEach(xs[..|xs| - 1], p);
      assert xs == xs[..|xs| - 1] + [xs[|xs| - 1]];
    }
  }
}
