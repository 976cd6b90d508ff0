/** Which candidates make it into a block, in `produce_block`: grouped by signer in the order of a hash
    map, sorted by nonce, cut at the first gap (src/node.rs). */
module Batch {
  import opened Types
  import opened RuntimeSpec
  import opened Nonces
  import S = Sorting

  // ---- the stable sort ---------------------------------------------------------------------------

  function NonceKey(e: Extrinsic): int { e.nonce }

  /** `sort_by_key(|e| e.nonce)`. */
  function SortByNonce(xs: seq<Extrinsic>): seq<Extrinsic> { S.SortBy(xs, NonceKey) }

  predicate Sorted(xs: seq<Extrinsic>) { S.Sorted(xs, NonceKey) }

  /** The extrinsics with nonce `k`, in order. */
  function ByNonce(xs: seq<Extrinsic>, k: int): seq<Extrinsic> { S.WithKey(xs, NonceKey, k) }

  /** The sort orders by nonce and keeps the extrinsics. */
  lemma SortSorts(xs: seq<Extrinsic>)
    ensures Sorted(SortByNonce(xs)) && multiset(SortByNonce(xs)) == multiset(xs)
  {
    S.SortSorts(xs, NonceKey);
  }

  /** The sort keeps those of equal nonce in their order. */
  lemma SortIsStable(xs: seq<Extrinsic>, k: int)
    ensures ByNonce(SortByNonce(xs), k) == ByNonce(xs, k)
  {
    S.SortIsStable(xs, NonceKey, k);
  }

  lemma SortedIsKept(xs: seq<Extrinsic>)
    requires Sorted(xs)
    ensures SortByNonce(xs) == xs
  {
    S.SortedIsKept(xs, NonceKey);
  }

  // ---- the gap-free run --------------------------------------------------------------------------

  /** The inner loop: take while the nonce is the expected one, which wraps as a `u32` does. */
  function SignerRun(xs: seq<Extrinsic>, expected: U32): seq<Extrinsic> {
    if xs == [] || xs[0].nonce != expected then []
    else [xs[0]] + SignerRun(xs[1..], (expected + 1) % (U32_MAX + 1))
  }

  /** The wrap is never seen: past the greatest nonce a sorted list has nothing at 0. */
  lemma RunUnfolds(xs: seq<Extrinsic>, n: U32)
    requires Sorted(xs) && xs != [] && xs[0].nonce == n
    ensures SignerRun(xs, n) == [xs[0]] + (if n < U32_MAX then SignerRun(xs[1..], n + 1) else [])
  {
    if n == U32_MAX && |xs| > 1 { assert xs[1..][0].nonce >= n; }
  }

  /** `r` is the longest prefix of `xs` whose nonces count up from `n`. */
  predicate IsLongest(xs: seq<Extrinsic>, r: seq<Extrinsic>, n: int) {
    && |r| <= |xs| && r == xs[..|r|] && CountsFrom(r, n)
    && (|r| < |xs| ==> xs[|r|].nonce != n + |r|)
  }

  lemma LongestAtMax(xs: seq<Extrinsic>, r: seq<Extrinsic>)
    requires xs != [] && xs[0].nonce == U32_MAX && r == [xs[0]] + []
    ensures IsLongest(xs, r, U32_MAX)
  {
    assert xs[..1] == r;
  }

  lemma NothingLongest(xs: seq<Extrinsic>, r: seq<Extrinsic>, n: int)
    requires (xs == [] || xs[0].nonce != n) && r == []
    ensures IsLongest(xs, r, n)
  {
    assert xs[..0] == r;
  }

  lemma {:induction false} RunIsLongest(xs: seq<Extrinsic>, n: U32)
    requires Sorted(xs)
    ensures IsLongest(xs, SignerRun(xs, n), n)
  {
    if xs == [] || xs[0].nonce != n {
      NothingLongest(xs, SignerRun(xs, n), n);
    } else {
      RunUnfolds(xs, n);
      if n < U32_MAX {
        RunIsLongest(xs[1..], n + 1);
      } else {
        LongestAtMax(xs, SignerRun(xs, n));
      }
    }
  }

  lemma {:induction false} CountedRunWhole(xs: seq<Extrinsic>, n: U32)
    requires CountsFrom(xs, n)
    ensures SignerRun(xs, n) == xs
  {
    if xs != [] {
      if |xs| > 1 {
        assert xs[1].nonce == n + 1;
        forall i | 0 <= i < |xs[1..]|
          ensures xs[1..][i].nonce == n + 1 + i
        {
          assert xs[1..][i] == xs[i + 1];
        }
        CountedRunWhole(xs[1..], n + 1);
      } else {
        assert xs[1..] == [];
      }
      assert xs == [xs[0]] + xs[1..];
    }
  }

  // ---- what is included --------------------------------------------------------------------------

  function Group(candidates: seq<Extrinsic>, nonces: map<AccountId32, U32>, a: AccountId32): seq<Extrinsic> {
    SignerRun(SortByNonce(BySigner(candidates, a)), NonceOf(nonces, a))
  }

  /** Any merge of the signers' runs that keeps the order within each, so every order of the hash map. */
  ghost predicate IsBatch(batch: seq<Extrinsic>, candidates: seq<Extrinsic>, nonces: map<AccountId32, U32>) {
    forall a :: BySigner(batch, a) == Group(candidates, nonces, a)
  }

  lemma BatchIsGapFree(batch: seq<Extrinsic>, candidates: seq<Extrinsic>, nonces: map<AccountId32, U32>)
    requires IsBatch(batch, candidates, nonces)
    ensures GapFree(batch, nonces)
  {
    forall a
      ensures CountsFrom(BySigner(batch, a), NonceOf(nonces, a))
    {
      SortSorts(BySigner(candidates, a));
      RunIsLongest(SortByNonce(BySigner(candidates, a)), NonceOf(nonces, a));
    }
  }

  lemma {:induction false} CountBySigner(es: seq<Extrinsic>, e: Extrinsic)
    ensures multiset(es)[e] == multiset(BySigner(es, e.signer))[e]
  {
    if es != [] {
      CountBySigner(es[..|es| - 1], e);
      assert es == es[..|es| - 1] + [es[|es| - 1]];
    }
  }

  lemma PrefixWithin(r: seq<Extrinsic>, xs: seq<Extrinsic>)
    requires |r| <= |xs| && r == xs[..|r|]
    ensures multiset(r) <= multiset(xs)
  {
    assert xs == r + xs[|r|..];
  }

  /** A signer's run is made of that signer's candidates. */
  lemma GroupWithin(candidates: seq<Extrinsic>, nonces: map<AccountId32, U32>, a: AccountId32)
    ensures multiset(Group(candidates, nonces, a)) <= multiset(BySigner(candidates, a))
  {
    var sorted := SortByNonce(BySigner(candidates, a));
    var r := Group(candidates, nonces, a);
    SortSorts(BySigner(candidates, a));
    RunIsLongest(sorted, NonceOf(nonces, a));
    PrefixWithin(r, sorted);
  }

  lemma BatchWithinCandidates(batch: seq<Extrinsic>, candidates: seq<Extrinsic>, nonces: map<AccountId32, U32>)
    requires IsBatch(batch, candidates, nonces)
    ensures multiset(batch) <= multiset(candidates) && |batch| <= |candidates|
  {
    forall e
      ensures multiset(batch)[e] <= multiset(candidates)[e]
    {
      CountBySigner(batch, e);
      CountBySigner(candidates, e);
      GroupWithin(candidates, nonces, e.signer);
    }
    MultisetSize(multiset(batch), multiset(candidates));
  }

  lemma MultisetSize(a: multiset<Extrinsic>, b: multiset<Extrinsic>)
    requires a <= b
    ensures |a| <= |b|
  {
    assert b == a + (b - a);
  }

  /** A block of any batch is executed in full by the runtime whose nonces the batch was built on, whatever
      the order of the signers: nothing is skipped and each nonce advances by the signer's share. */
  lemma BatchAccepted(c: Crypto, s: State, batch: seq<Extrinsic>, candidates: seq<Extrinsic>)
    requires s.height < U32_MAX && IsBatch(batch, candidates, s.nonces)
    requires Runnable(batch, VerifyBatch(c, batch))
    ensures var x := ExecuteBlock(c, s, Block(Header(s.height + 1), batch));
            && x.end == Returned(Ok) && Accepted(x.receipts) == batch
            && forall a :: NonceOf(x.state.nonces, a) == NonceOf(s.nonces, a) + |Group(candidates, s.nonces, a)|
  {
    BatchIsGapFree(batch, candidates, s.nonces);
    BlockAcceptsAll(c, s, Block(Header(s.height + 1), batch));
  }

  /** How many candidates carry nonce `k`. */
  function Copies(xs: seq<Extrinsic>, k: int): nat { |ByNonce(xs, k)| }

  lemma {:induction false} ByNonceFront(e: Extrinsic, xs: seq<Extrinsic>, k: int)
    ensures ByNonce([e] + xs, k) == (if e.nonce == k then [e] else []) + ByNonce(xs, k)
  {
    if xs == [] {
      assert [e] + xs == [e];
      assert [e][..0] == [];
      assert [] + [e] == [e];
    } else {
      var n := |xs| - 1;
      ByNonceFront(e, xs[..n], k);
      assert ([e] + xs)[..n + 1] == [e] + xs[..n];
      assert ([e] + xs)[n + 1] == xs[n];
    }
  }

  lemma {:induction false} NoneBelow(xs: seq<Extrinsic>, k: int)
    requires forall i :: 0 <= i < |xs| ==> xs[i].nonce != k
    ensures ByNonce(xs, k) == []
  {
    if xs != [] { NoneBelow(xs[..|xs| - 1], k); }
  }

  /** Nonce `m` is reached from `n`: nothing stale, exactly one candidate for every nonce in between, and one
      for `m` itself. */
  ghost predicate Reached(xs: seq<Extrinsic>, n: int, m: int) {
    && n <= m
    && (forall k :: k < n ==> Copies(xs, k) == 0)
    && (forall k :: n <= k < m ==> Copies(xs, k) == 1)
    && Copies(xs, m) >= 1
  }

  lemma CopiesFront(xs: seq<Extrinsic>, k: int)
    requires xs != []
    ensures Copies(xs, k) == (if xs[0].nonce == k then 1 else 0) + Copies(xs[1..], k)
  {
    assert [xs[0]] + xs[1..] == xs;
    ByNonceFront(xs[0], xs[1..], k);
  }

  lemma HasNonceFront(e: Extrinsic, q: seq<Extrinsic>, m: int)
    ensures HasNonce([e] + q, m) <==> e.nonce == m || HasNonce(q, m)
  {
    if HasNonce(q, m) {
      var i :| 0 <= i < |q| && q[i].nonce == m;
      assert ([e] + q)[i + 1].nonce == m;
    }
    if e.nonce == m { assert ([e] + q)[0].nonce == m; }
  }

  /** When the expected nonce is not at the front of a sorted list, no nonce can be reached. */
  lemma NothingReached(xs: seq<Extrinsic>, n: int, m: int)
    requires Sorted(xs) && (xs == [] || xs[0].nonce != n)
    ensures !Reached(xs, n, m)
  {
    if xs == [] {
      assert Copies(xs, m) == 0;
    } else if xs[0].nonce < n {
      CopiesFront(xs, xs[0].nonce);
    } else {
      NoneBelow(xs, n);
      assert Copies(xs, n) == 0;
    }
  }

  /** With the expected nonce at the front, reaching `m` is reaching it in the rest. */
  lemma ReachedFront(xs: seq<Extrinsic>, n: int, m: int)
    requires Sorted(xs) && xs != [] && xs[0].nonce == n
    ensures Reached(xs, n, m) <==> m == n || Reached(xs[1..], n + 1, m)
  {
    forall k
      ensures Copies(xs, k) == (if k == n then 1 else 0) + Copies(xs[1..], k)
    {
      CopiesFront(xs, k);
    }
    forall k | k < n
      ensures Copies(xs, k) == 0
    {
      NoneBelow(xs, k);
    }
    if Reached(xs[1..], n + 1, m) {
      assert Copies(xs[1..], n) == 0;
    }
  }

  lemma {:induction false} SortedIncluded(xs: seq<Extrinsic>, n: U32, m: U32)
    requires Sorted(xs)
    ensures HasNonce(SignerRun(xs, n), m) <==> Reached(xs, n, m)
  {
    if xs == [] || xs[0].nonce != n {
      NothingReached(xs, n, m);
    } else {
      RunUnfolds(xs, n);
      ReachedFront(xs, n, m);
      if n < U32_MAX {
        SortedIncluded(xs[1..], n + 1, m);
        HasNonceFront(xs[0], SignerRun(xs[1..], n + 1), m);
      } else {
        HasNonceFront(xs[0], [], m);
      }
    }
  }

  /** The whole rule, for any candidates: nonce `m` of signer `a` is in the batch if and only if none of the
      signer's candidates is stale, every nonce from the runtime's up to `m` is there, and none before `m`
      is there twice. One stale nonce, or one duplicate, keeps everything after it out. */
  lemma IncludedExactly(batch: seq<Extrinsic>, candidates: seq<Extrinsic>, nonces: map<AccountId32, U32>,
                        a: AccountId32, m: U32)
    requires IsBatch(batch, candidates, nonces)
    ensures HasNonce(BySigner(batch, a), m) <==> Reached(BySigner(candidates, a), NonceOf(nonces, a), m)
  {
    var xs := BySigner(candidates, a);
    SortSorts(xs);
    SortedIncluded(SortByNonce(xs), NonceOf(nonces, a), m);
    forall k
      ensures Copies(SortByNonce(xs), k) == Copies(xs, k)
    {
      SortIsStable(xs, k);
    }
  }

  /** The whole price of one stale candidate: its signer has nothing in the block, however many of its other
      candidates could have run. */
  lemma StaleSilencesSigner(batch: seq<Extrinsic>, candidates: seq<Extrinsic>, nonces: map<AccountId32, U32>,
                            e: Extrinsic)
    requires IsBatch(batch, candidates, nonces) && e in candidates && e.nonce < NonceOf(nonces, e.signer)
    ensures BySigner(batch, e.signer) == []
  {
    var mine := BySigner(batch, e.signer);
    var xs := BySigner(candidates, e.signer);
    CountBySigner(candidates, e);
    assert e in multiset(candidates) && e in multiset(xs);
    NonceCounted(xs, e);
    if mine != [] {
      assert HasNonce(mine, mine[0].nonce);
      IncludedExactly(batch, candidates, nonces, e.signer, mine[0].nonce);
      assert false;
    }
  }

  lemma {:induction false} NonceCounted(xs: seq<Extrinsic>, e: Extrinsic)
    requires e in xs
    ensures Copies(xs, e.nonce) > 0
  {
    if xs[|xs| - 1] != e {
      assert xs == xs[..|xs| - 1] + [xs[|xs| - 1]];
      NonceCounted(xs[..|xs| - 1], e);
    }
  }

  predicate IsFirstOf(e: Extrinsic, xs: seq<Extrinsic>) { xs != [] && xs[0] == e }

  /** Of several candidates with the same signer and nonce the one submitted first is taken. */
  lemma FirstCopyTaken(batch: seq<Extrinsic>, candidates: seq<Extrinsic>, nonces: map<AccountId32, U32>,
                       a: AccountId32, i: nat)
    requires IsBatch(batch, candidates, nonces) && i < |BySigner(batch, a)|
    ensures IsFirstOf(BySigner(batch, a)[i], ByNonce(BySigner(candidates, a), BySigner(batch, a)[i].nonce))
  {
    var xs := BySigner(candidates, a);
    var r := BySigner(batch, a);
    SortSorts(xs);
    SortIsStable(xs, r[i].nonce);
    RunIsLongest(SortByNonce(xs), NonceOf(nonces, a));
    RunTakesFirst(SortByNonce(xs), r, NonceOf(nonces, a), i);
  }

  lemma RunTakesFirst(xs: seq<Extrinsic>, r: seq<Extrinsic>, n: int, i: nat)
    requires Sorted(xs) && r <= xs && CountsFrom(r, n) && i < |r|
    ensures IsFirstOf(r[i], ByNonce(xs, r[i].nonce))
  {
    forall j | 0 <= j < i
      ensures xs[j].nonce < xs[i].nonce
    {
      assert xs[j] == r[j] && xs[i] == r[i];
    }
    FirstOfNonce(xs, i);
  }

  /** In a sorted list whose first entries all differ, entry `i` is the first of its nonce. */
  lemma {:induction false} FirstOfNonce(xs: seq<Extrinsic>, i: nat)
    requires Sorted(xs) && i < |xs| && forall j :: 0 <= j < i ==> xs[j].nonce < xs[i].nonce
    ensures IsFirstOf(xs[i], ByNonce(xs, xs[i].nonce))
  {
    var n := |xs| - 1;
    if i == n {
      NoneBelow(xs[..n], xs[i].nonce);
    } else {
      FirstOfNonce(xs[..n], i);
    }
  }

  // ---- honest candidates -------------------------------------------------------------------------

  /** Candidates that already count up from the runtime's nonces are all taken. */
  lemma HonestAllTaken(batch: seq<Extrinsic>, candidates: seq<Extrinsic>, nonces: map<AccountId32, U32>)
    requires IsBatch(batch, candidates, nonces) && GapFree(candidates, nonces)
    ensures forall a :: BySigner(batch, a) == BySigner(candidates, a)
    ensures multiset(batch) == multiset(candidates)
  {
    forall a
      ensures BySigner(batch, a) == BySigner(candidates, a)
    {
      assert CountsFrom(BySigner(candidates, a), NonceOf(nonces, a));
      SortedIsKept(BySigner(candidates, a));
      CountedRunWhole(BySigner(candidates, a), NonceOf(nonces, a));
    }
    forall e
      ensures multiset(batch)[e] == multiset(candidates)[e]
    {
      CountBySigner(batch, e);
      CountBySigner(candidates, e);
    }
  }
}
