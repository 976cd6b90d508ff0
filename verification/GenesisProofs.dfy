/** Genesis under crashes, and the supply of a chain that starts from an empty database (src/lib.rs). */
module GenesisProofs {
  import opened Types
  import opened Storage
  import opened RuntimeSpec
  import opened Supply
  import opened Crashes

  /** A database on which genesis has not completed: nothing but some of the endowments. */
  ghost predicate Unborn(dev: Dev, st: Store) {
    && st.height.None? && st.nonces == map[] && st.claims == map[]
    && forall a :: a in st.balances ==> a in {dev.alice, dev.bob, dev.charlie} && st.balances[a] == ENDOWMENT
  }

  /** The database that a completed genesis leaves. */
  function Born(dev: Dev): Store { Store(Some(1), map[], Endow(map[], dev), map[]) }

  function GenesisWrites(dev: Dev): seq<Write> {
    Endowments(dev) + [PutHeight(1)]
  }

  lemma GenesisLog(c: Crypto, dev: Dev, s: State)
    requires s.height == 0
    ensures var g := Genesis(c, dev, s);
            && g.log == Tagged(GenesisWrites(dev), None) && g.end == Returned(Ok)
            && Writes(g.log) == [PutBalance(dev.alice, 1_000_000), PutBalance(dev.bob, 1_000_000),
                                 PutBalance(dev.charlie, 1_000_000), PutHeight(1)]
            && (forall a :: BalanceOf(g.state.balances, a) ==
                  if a in {dev.alice, dev.bob, dev.charlie} then 1_000_000 else BalanceOf(s.balances, a))
            && g.state == s.(height := 1, balances := Endow(s.balances, dev))
  {
    assert Tagged(GenesisWrites(dev), None) == Tagged(Endowments(dev), None) + [Entry(PutHeight(1), None)];
    assert [Entry(PutHeight(1), None)] + [] == [Entry(PutHeight(1), None)];
  }

  /** A genesis cut before its last write leaves a database on which it will be tried again; one that is
      not cut always leaves the same database, whatever earlier attempts had written. */
  lemma GenesisCut(c: Crypto, dev: Dev, st: Store, cut: nat)
    requires Unborn(dev, st)
    ensures var after := After(st, Kept(Genesis(c, dev, Load(st)).log, cut));
            if cut < 4 then Unborn(dev, after) else after == Born(dev)
  {
    GenesisLog(c, dev, Load(st));
    var ws := GenesisWrites(dev);
    var k := if cut < 4 then cut else 4;
    assert Writes(Kept(Tagged(ws, None), cut)) == ws[..k];
    GenesisPrefix(dev, st, k);
  }

  lemma GenesisPrefix(dev: Dev, st: Store, k: nat)
    requires Unborn(dev, st) && k <= 4
    ensures var after := Replay(st, GenesisWrites(dev)[..k]);
            if k < 4 then Unborn(dev, after) else after == Born(dev)
  {
    var ws := GenesisWrites(dev);
    ReplayPrefix(st, ws, k);
    if k == 4 {
      assert Replay(st, ws[..4]).balances == Endow(map[], dev);
    }
  }

  lemma ReplayPrefix(st: Store, ws: seq<Write>, k: nat)
    requires k <= |ws| == 4
    ensures Replay(st, ws[..k]) ==
            match k
            case 0 => st
            case 1 => Apply(st, ws[0])
            case 2 => Apply(Apply(st, ws[0]), ws[1])
            case 3 => Apply(Apply(Apply(st, ws[0]), ws[1]), ws[2])
            case _ => Apply(Apply(Apply(Apply(st, ws[0]), ws[1]), ws[2]), ws[3])
  {
    if k > 0 {
      ReplayPrefix(st, ws, k - 1);
      assert ws[..k][..k - 1] == ws[..k - 1];
    }
  }

  /** Start-ups one after the other, each surviving the number of writes given. */
  ghost function Attempts(c: Crypto, dev: Dev, st: Store, cuts: seq<nat>): Store {
    if cuts == [] then st
    else
      var mid := Attempts(c, dev, st, cuts[..|cuts| - 1]);
      After(mid, Kept(Genesis(c, dev, Load(mid)).log, cuts[|cuts| - 1]))
  }

  /** Some attempt got all four writes of genesis through. */
  ghost predicate SomeUncut(cuts: seq<nat>) { exists i :: 0 <= i < |cuts| && cuts[i] >= 4 }

  /** From an empty database, genesis may crash at any write and be retried any number of times: as soon as
      one attempt is not cut, and only then, height is 1, the three accounts hold exactly the endowment and
      there is nothing else; no later start-up writes anything. */
  lemma {:induction false} GenesisConverges(c: Crypto, dev: Dev, cuts: seq<nat>)
    ensures var after := Attempts(c, dev, EMPTY, cuts);
            && (after == Born(dev) <==> SomeUncut(cuts))
            && (after != Born(dev) ==> Unborn(dev, after))
  {
    if cuts != [] {
      var n := |cuts| - 1;
      GenesisConverges(c, dev, cuts[..n]);
      var mid := Attempts(c, dev, EMPTY, cuts[..n]);
      if mid == Born(dev) {
      } else {
        GenesisCut(c, dev, mid, cuts[n]);
      }
      UncutSnoc(cuts);
    }
  }

  lemma UncutSnoc(cuts: seq<nat>)
    requires cuts != []
    ensures SomeUncut(cuts) <==> SomeUncut(cuts[..|cuts| - 1]) || cuts[|cuts| - 1] >= 4
  {
    var n := |cuts| - 1;
    if SomeUncut(cuts[..n]) {
      var i :| 0 <= i < n && cuts[..n][i] >= 4;
      assert cuts[i] >= 4;
    }
    if SomeUncut(cuts) && cuts[n] < 4 {
      var i :| 0 <= i < |cuts| && cuts[i] >= 4;
      assert cuts[..n][i] >= 4;
    }
  }

  // ---- from an empty database --------------------------------------------------------------------

  lemma TotalWithout(m: map<AccountId32, U128>, a: AccountId32)
    ensures Total(m) == BalanceOf(m, a) + Total(m - {a})
  {
    if a in m { TotalSplit(m, a); } else { assert m - {a} == m; }
  }

  lemma EndowmentsCapped(dev: Dev, m: map<AccountId32, U128>)
    requires forall a :: a in m ==> a in {dev.alice, dev.bob, dev.charlie} && m[a] == ENDOWMENT
    ensures Total(m) <= 3 * ENDOWMENT
  {
    var rest := m - {dev.alice};
    TotalWithout(m, dev.alice);
    TotalWithout(rest, dev.bob);
    TotalWithout(rest - {dev.bob}, dev.charlie);
    assert rest - {dev.bob} - {dev.charlie} == map[];
  }

  /** Not yet born, or past genesis with no more than the endowments in the store. */
  ghost predicate WithinEndowment(dev: Dev, st: Store) {
    || Unborn(dev, st)
    || (Load(st).height > 0 && Total(st.balances) <= 3 * ENDOWMENT)
  }

  lemma BornLife(c: Crypto, dev: Dev, s: State, bs: seq<Block>, kept: seq<Entry>)
    requires s == Load(Born(dev)) && NoSelfTransfers(bs) && kept <= Run(c, s, bs).log
    ensures Load(After(Born(dev), kept)).height > 0 && Total(After(Born(dev), kept).balances) <= 3 * ENDOWMENT
  {
    EndowmentsCapped(dev, Endow(map[], dev));
    RunCapped(c, Born(dev), s, bs, kept);
  }

  /** The writes of a first process are those of genesis, then those of its blocks. */
  lemma FirstLog(c: Crypto, dev: Dev, st: Store, bs: seq<Block>)
    requires Unborn(dev, st)
    ensures var g := Tagged(GenesisWrites(dev), None);
            var funded := Load(Born(dev)).(balances := Genesis(c, dev, Load(st)).state.balances);
            Process(c, dev, st, bs).log == g + Run(c, funded, bs).log
    ensures Genesis(c, dev, Load(st)).state.balances == Endow(map[], dev)
    ensures After(st, Tagged(GenesisWrites(dev), None)) == Born(dev)
  {
    GenesisLog(c, dev, Load(st));
    GenesisCut(c, dev, st, 4);
    assert Kept(Genesis(c, dev, Load(st)).log, 4) == Tagged(GenesisWrites(dev), None);
  }

  /** A first process that dies in genesis. */
  lemma DiesInGenesis(c: Crypto, dev: Dev, st: Store, i: Incarnation)
    requires Unborn(dev, st) && |Durable(c, dev, st, i)| < 4
    ensures Unborn(dev, After(st, Durable(c, dev, st, i)))
  {
    var g, kept := Tagged(GenesisWrites(dev), None), Durable(c, dev, st, i);
    FirstLog(c, dev, st, i.blocks);
    GenesisLog(c, dev, Load(st));
    assert kept == Kept(g, |kept|);
    GenesisCut(c, dev, st, |kept|);
  }

  /** A first process that dies later: what it leaves is what its blocks leave of the born database. */
  lemma DiesLater(c: Crypto, dev: Dev, st: Store, i: Incarnation) returns (more: seq<Entry>)
    requires Unborn(dev, st) && |Durable(c, dev, st, i)| >= 4
    ensures more <= Run(c, Load(Born(dev)), i.blocks).log
    ensures After(st, Durable(c, dev, st, i)) == After(Born(dev), more)
  {
    var g, kept := Tagged(GenesisWrites(dev), None), Durable(c, dev, st, i);
    FirstLog(c, dev, st, i.blocks);
    more := kept[4..];
    KeptPast(kept, Process(c, dev, st, i.blocks).log, g, Run(c, Load(Born(dev)), i.blocks).log);
    AfterConcat(st, g, more);
  }

  lemma KeptPast(kept: seq<Entry>, log: seq<Entry>, g: seq<Entry>, y: seq<Entry>)
    requires kept <= log && log == g + y && |kept| >= |g|
    ensures kept == g + kept[|g|..] && kept[|g|..] <= y
  {}

  lemma FirstLife(c: Crypto, dev: Dev, st: Store, i: Incarnation)
    requires Unborn(dev, st) && NoSelfTransfers(i.blocks)
    ensures WithinEndowment(dev, After(st, Durable(c, dev, st, i)))
  {
    if |Durable(c, dev, st, i)| < 4 {
      DiesInGenesis(c, dev, st, i);
    } else {
      var more := DiesLater(c, dev, st, i);
      BornLife(c, dev, Load(Born(dev)), i.blocks, more);
    }
  }

  /** From an empty database, through any number of crashes at any writes, genesis included, and any blocks
      without self-transfers, the persisted supply never exceeds the three endowments. */
  lemma {:induction false} SupplyFromNothing(c: Crypto, dev: Dev, lives: seq<Incarnation>)
    requires NoSelfTransfersIn(lives)
    ensures WithinEndowment(dev, Survives(c, dev, EMPTY, lives))
    ensures Total(Survives(c, dev, EMPTY, lives).balances) <= 3 * ENDOWMENT
  {
    if lives != [] {
      var n := |lives| - 1;
      SupplyFromNothing(c, dev, lives[..n]);
      var mid := Survives(c, dev, EMPTY, lives[..n]);
      if Unborn(dev, mid) {
        FirstLife(c, dev, mid, lives[n]);
      } else {
        LifeCapped(c, dev, mid, lives[n]);
      }
    }
    var after := Survives(c, dev, EMPTY, lives);
    if Unborn(dev, after) { EndowmentsCapped(dev, after.balances); }
  }
}
