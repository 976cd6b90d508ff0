/** The store and the three pallets as the program has them: objects whose maps and whose store change in
    place, each operation proved against RuntimeSpec. */
module Pallets {
  import opened Types
  import opened Scale
  import opened ScaleNumbers
  import opened Storage
  import opened StorageKeys
  import opened RuntimeSpec

  function BytesOf(log: seq<Entry>): seq<ByteWrite> { EncodeWrites(Writes(log)) }

  lemma BytesConcat(x: seq<Entry>, y: seq<Entry>)
    ensures BytesOf(x + y) == BytesOf(x) + BytesOf(y)
  {
    WritesConcat(x, y);
  }

  lemma NoWrite(was: seq<ByteWrite>)
    ensures was + EncodeWrites([]) == was
  {}

  /** The effects of the pallet calls, in the terms of their methods. */
  lemma TransferBytes(was: seq<ByteWrite>, s: State, caller: AccountId32, to: AccountId32, amount: U128)
    ensures var d := TransferEffect(s, caller, to, amount);
            var had, got := BalanceOf(s.balances, caller), BalanceOf(s.balances, to) + amount;
            if had < amount then
              d.result == Err("Not enough funds.") && d.state == s && was + EncodeWrites(d.writes) == was
            else if got > U128_MAX then
              d.result == Err("Overflow") && d.state == s && was + EncodeWrites(d.writes) == was
            else
              && d.result == Ok && d.state.balances == s.balances[caller := had - amount][to := got]
              && was + EncodeWrites(d.writes) ==
                 was + [EncodeWrite(PutBalance(caller, had - amount))] + [EncodeWrite(PutBalance(to, got))]
  {
    var had, got := BalanceOf(s.balances, caller), BalanceOf(s.balances, to) + amount;
    if had < amount || got > U128_MAX {
      NoWrite(was);
    }
  }

  lemma CreateBytes(was: seq<ByteWrite>, s: State, caller: AccountId32, claim: Content)
    ensures var d := CreateEffect(s, caller, claim);
            if claim in s.claims then
              d.result == Err("this content is already claimed") && d.state == s && was + EncodeWrites(d.writes) == was
            else
              var claims := s.claims[claim := caller];
              && d.result == Ok && d.state.claims == claims && claims.Keys != {}
              && was + EncodeWrites(d.writes) ==
                 was + [EncodeWrite(PutClaim(Greatest(claims.Keys), claims[Greatest(claims.Keys)]))]
  {
    if claim in s.claims {
      NoWrite(was);
    } else {
      var claims := s.claims[claim := caller];
      assert claim in claims.Keys;
    }
  }

  lemma RevokeBytes(was: seq<ByteWrite>, s: State, caller: AccountId32, claim: Content)
    ensures var d := RevokeEffect(s, caller, claim);
            if claim !in s.claims then
              d.result == Err("claim does not exist") && d.state == s && was + EncodeWrites(d.writes) == was
            else if s.claims[claim] != caller then
              d.result == Err("caller is not owner") && d.state == s && was + EncodeWrites(d.writes) == was
            else
              && d.result == Ok && d.state.claims == s.claims - {claim}
              && was + EncodeWrites(d.writes) == was + [EncodeWrite(DeleteClaim(claim))]
  {
    if claim in s.claims && s.claims[claim] == caller {
    } else {
      NoWrite(was);
    }
  }

  /** A `KeyValueStore` whose writes succeed, with the log of the writes made to it. */
  class KvStore {
    var data: ByteMap
    ghost const base: ByteMap
    ghost var log: seq<ByteWrite>

    /** The data is what the log makes of the contents the store was opened with. */
    ghost predicate Valid()
      reads this
    {
      data == ReplayBytes(base, log)
    }

    constructor (contents: ByteMap)
      ensures Valid() && data == base == contents && log == []
    {
      data := contents;
      base := contents;
      log := [];
    }

    method Get(key: Bytes) returns (value: Option<Bytes>)
      ensures value == Lookup(data, key)
    {
      value := if key in data then Some(data[key]) else None;
    }

    method Put(key: Bytes, value: Bytes)
      requires Valid()
      modifies this
      ensures Valid() && log == old(log) + [ByteWrite.Put(key, value)]
      ensures data == old(data)[key := value]
    {
      data := data[key := value];
      log := log + [ByteWrite.Put(key, value)];
    }

    method Delete(key: Bytes)
      requires Valid()
      modifies this
      ensures Valid() && log == old(log) + [ByteWrite.Delete(key)]
      ensures data == old(data) - {key}
    {
      data := data - {key};
      log := log + [ByteWrite.Delete(key)];
    }

    /** Every pair whose key starts with the prefix, each once, in the order of the keys. */
    method ScanPrefix(prefix: Bytes) returns (pairs: seq<(Bytes, Bytes)>)
      ensures IsScan(data, prefix, pairs)
    {
      pairs := [];
      var rest := data.Keys;
      while rest != {}
        invariant rest <= data.Keys
        invariant Scanning(data, prefix, pairs, rest)
        decreases rest
      {
        var key := FirstKey(rest);
        if prefix <= key {
          ScanTakes(data, prefix, pairs, rest, key);
          pairs := pairs + [(key, data[key])];
        }
        rest := rest - {key};
      }
    }
  }

  /** Strictly by key. */
  ghost predicate Ascending(pairs: seq<(Bytes, Bytes)>) {
    forall i, j :: 0 <= i < j < |pairs| ==> LexLess(pairs[i].0, pairs[j].0)
  }

  ghost predicate HasKey(pairs: seq<(Bytes, Bytes)>, key: Bytes) { exists i :: 0 <= i < |pairs| && pairs[i].0 == key }

  /** The pairs with the prefix, all of them and no others, in the order of the keys. */
  ghost predicate IsScan(m: ByteMap, prefix: Bytes, pairs: seq<(Bytes, Bytes)>) {
    && (forall i :: 0 <= i < |pairs| ==> pairs[i].0 in m && prefix <= pairs[i].0 && pairs[i].1 == m[pairs[i].0])
    && Ascending(pairs)
    && (forall key :: key in m && prefix <= key ==> HasKey(pairs, key))
  }

  /** The scan with the keys in `rest` to go: it has the pairs with the prefix of all others, and they come
      first. */
  ghost predicate Scanning(m: ByteMap, prefix: Bytes, pairs: seq<(Bytes, Bytes)>, rest: set<Bytes>) {
    && (forall i :: 0 <= i < |pairs| ==> pairs[i].0 in m && prefix <= pairs[i].0 && pairs[i].1 == m[pairs[i].0])
    && Ascending(pairs)
    && (forall key :: key in m && key !in rest && prefix <= key ==> HasKey(pairs, key))
    && (forall i, key :: 0 <= i < |pairs| && key in rest ==> LexLess(pairs[i].0, key))
  }

  ghost predicate IsFirst(key: Bytes, keys: set<Bytes>) {
    key in keys && forall k :: k in keys && k != key ==> LexLess(key, k)
  }

  /** The cursor of an ordered map: the least key. */
  method FirstKey(keys: set<Bytes>) returns (first: Bytes)
    requires keys != {}
    ensures IsFirst(first, keys)
  {
    first :| first in keys;
    var rest := keys - {first};
    while rest != {}
      invariant rest <= keys && first in keys && first !in rest
      invariant IsFirst(first, keys - rest)
      decreases rest
    {
      var k :| k in rest;
      LexTotal(k, first);
      ghost var seen := keys - rest;
      rest := rest - {k};
      assert keys - rest == seen + {k};
      if LexLess(k, first) {
        forall j | j in keys - rest && j != k
          ensures LexLess(k, j)
        {
          if j != first { LexTransitive(k, first, j); }
        }
        first := k;
      }
    }
    assert keys - rest == keys;
  }

  lemma ScanTakes(m: ByteMap, prefix: Bytes, pairs: seq<(Bytes, Bytes)>, rest: set<Bytes>, key: Bytes)
    requires rest <= m.Keys && Scanning(m, prefix, pairs, rest) && IsFirst(key, rest) && prefix <= key
    ensures Scanning(m, prefix, pairs + [(key, m[key])], rest - {key})
  {
    var more := pairs + [(key, m[key])];
    forall k | k in m && k !in rest - {key} && prefix <= k
      ensures HasKey(more, k)
    {
      if k == key {
        assert more[|pairs|].0 == k;
      } else {
        var i :| 0 <= i < |pairs| && pairs[i].0 == k;
        assert more[i].0 == k;
      }
    }
  }

  /** The first `n` pairs have been inserted: every key bound among them is there, with the value of the last
      that binds it. */
  ghost predicate Inserted<K, V>(m: ByteMap, prefix: Bytes, dk: Bytes -> Parsed<K>, dv: Bytes -> Parsed<V>,
                                 pairs: seq<(Bytes, Bytes)>, n: int, r: map<K, V>)
    requires n <= |pairs|
  {
    && (forall i :: 0 <= i < n && Taken(m, prefix, dk, dv, pairs[i].0) ==> dk(pairs[i].0[|prefix|..]).value in r)
    && (forall k :: k in r ==>
          exists i :: BoundAt(m, prefix, dk, dv, pairs, n, i, k) && dv(m[pairs[i].0]).value == r[k])
  }

  /** Pair `i` is the last of the first `n` that binds `k`. */
  ghost predicate BoundAt<K, V>(m: ByteMap, prefix: Bytes, dk: Bytes -> Parsed<K>, dv: Bytes -> Parsed<V>,
                                pairs: seq<(Bytes, Bytes)>, n: int, i: int, k: K)
    requires n <= |pairs|
  {
    && 0 <= i < n && Binds(m, prefix, dk, dv, pairs[i].0, k)
    && forall j :: i < j < n ==> !Binds(m, prefix, dk, dv, pairs[j].0, k)
  }

  lemma StillBound<K(!new), V>(m: ByteMap, prefix: Bytes, dk: Bytes -> Parsed<K>, dv: Bytes -> Parsed<V>,
                               pairs: seq<(Bytes, Bytes)>, n: nat, r: map<K, V>, k: K)
    requires n < |pairs| && Inserted(m, prefix, dk, dv, pairs, n, r)
    requires k in r && !Binds(m, prefix, dk, dv, pairs[n].0, k)
    ensures exists i :: BoundAt(m, prefix, dk, dv, pairs, n + 1, i, k) && dv(m[pairs[i].0]).value == r[k]
  {
    var i :| BoundAt(m, prefix, dk, dv, pairs, n, i, k) && dv(m[pairs[i].0]).value == r[k];
    assert BoundAt(m, prefix, dk, dv, pairs, n + 1, i, k);
  }

  lemma InsertsTaken<K(!new), V>(m: ByteMap, prefix: Bytes, dk: Bytes -> Parsed<K>, dv: Bytes -> Parsed<V>,
                                 pairs: seq<(Bytes, Bytes)>, n: nat, r: map<K, V>, k: K, v: V)
    requires n < |pairs| && Inserted(m, prefix, dk, dv, pairs, n, r)
    requires Binds(m, prefix, dk, dv, pairs[n].0, k) && dv(m[pairs[n].0]).value == v
    ensures Inserted(m, prefix, dk, dv, pairs, n + 1, r[k := v])
  {
    assert BoundAt(m, prefix, dk, dv, pairs, n + 1, n, k);
    forall j | j in r && j != k
      ensures exists i :: BoundAt(m, prefix, dk, dv, pairs, n + 1, i, j) && dv(m[pairs[i].0]).value == r[j]
    {
      StillBound(m, prefix, dk, dv, pairs, n, r, j);
    }
  }

  lemma InsertsSkipped<K(!new), V>(m: ByteMap, prefix: Bytes, dk: Bytes -> Parsed<K>, dv: Bytes -> Parsed<V>,
                                   pairs: seq<(Bytes, Bytes)>, n: nat, r: map<K, V>)
    requires n < |pairs| && Inserted(m, prefix, dk, dv, pairs, n, r)
    requires !Taken(m, prefix, dk, dv, pairs[n].0)
    ensures Inserted(m, prefix, dk, dv, pairs, n + 1, r)
  {
    forall j | j in r
      ensures exists i :: BoundAt(m, prefix, dk, dv, pairs, n + 1, i, j) && dv(m[pairs[i].0]).value == r[j]
    {
      StillBound(m, prefix, dk, dv, pairs, n, r, j);
    }
  }

  lemma BoundLast<K(!new), V>(m: ByteMap, prefix: Bytes, dk: Bytes -> Parsed<K>, dv: Bytes -> Parsed<V>,
                              pairs: seq<(Bytes, Bytes)>, i: int, k: K)
    requires IsScan(m, prefix, pairs) && BoundAt(m, prefix, dk, dv, pairs, |pairs|, i, k)
    ensures LastBinds(m, prefix, dk, dv, pairs[i].0, k)
  {
    forall other | Binds(m, prefix, dk, dv, other, k) && other != pairs[i].0
      ensures LexLess(other, pairs[i].0)
    {
      assert HasKey(pairs, other);
      var j :| 0 <= j < |pairs| && pairs[j].0 == other;
      assert j < i;
    }
  }

  lemma AllInserted<K(!new), V>(m: ByteMap, prefix: Bytes, dk: Bytes -> Parsed<K>, dv: Bytes -> Parsed<V>,
                                pairs: seq<(Bytes, Bytes)>, r: map<K, V>)
    requires IsScan(m, prefix, pairs) && Inserted(m, prefix, dk, dv, pairs, |pairs|, r)
    ensures Loaded(m, prefix, dk, dv, r)
  {
    forall key | Taken(m, prefix, dk, dv, key)
      ensures dk(key[|prefix|..]).value in r
    {
      assert HasKey(pairs, key);
      var i :| 0 <= i < |pairs| && pairs[i].0 == key;
    }
    forall k | k in r
      ensures exists key :: LastBinds(m, prefix, dk, dv, key, k) && dv(m[key]).value == r[k]
    {
      var i :| BoundAt(m, prefix, dk, dv, pairs, |pairs|, i, k) && dv(m[pairs[i].0]).value == r[k];
      BoundLast(m, prefix, dk, dv, pairs, i, k);
    }
  }

  /** One turn of the loop below, at pair `i`. */
  method InsertPair<K(==, !new), V(!new)>(ghost m: ByteMap, prefix: Bytes,
                                          dk: Bytes -> Parsed<K>, dv: Bytes -> Parsed<V>,
                                          pairs: seq<(Bytes, Bytes)>, i: nat, before: map<K, V>)
    returns (after: map<K, V>)
    requires i < |pairs| && pairs[i].0 in m && pairs[i].1 == m[pairs[i].0] && prefix <= pairs[i].0
    requires Inserted(m, prefix, dk, dv, pairs, i, before)
    ensures Inserted(m, prefix, dk, dv, pairs, i + 1, after)
  {
    var key, value := pairs[i].0, pairs[i].1;
    after := before;
    if |key| > |prefix| {
      var k, v := dk(key[|prefix|..]), dv(value);
      if k.Parsed? && v.Parsed? {
        InsertsTaken(m, prefix, dk, dv, pairs, i, before, k.value, v.value);
        return before[k.value := v.value];
      }
    }
    InsertsSkipped(m, prefix, dk, dv, pairs, i, before);
  }

  /** The loop with which every pallet fills its map from a scan. */
  method LoadMap<K(==, !new), V(!new)>(store: KvStore, prefix: Bytes, dk: Bytes -> Parsed<K>, dv: Bytes -> Parsed<V>)
    returns (r: map<K, V>)
    ensures Loaded(store.data, prefix, dk, dv, r)
  {
    ghost var m := store.data;
    var pairs := store.ScanPrefix(prefix);
    r := map[];
    var i := 0;
    while i < |pairs|
      invariant 0 <= i <= |pairs| && Inserted(m, prefix, dk, dv, pairs, i, r)
    {
      r := InsertPair(m, prefix, dk, dv, pairs, i, r);
      i := i + 1;
    }
    AllInserted(m, prefix, dk, dv, pairs, r);
  }

  class SystemPallet {
    const store: KvStore
    var blockNumber: U32
    var nonces: map<AccountId32, U32>

    constructor New(store: KvStore)
      ensures this.store == store
      ensures blockNumber == LoadedHeight(store.data)
      ensures Loaded(store.data, PREFIX_NONCE, DecodeAccount, DecodeU32, nonces)
    {
      this.store := store;
      new;
      var bytes := store.Get(PREFIX_BLOCK_NUMBER);
      blockNumber := 0;
      if bytes.Some? && DecodeU32(bytes.value).Parsed? {
        blockNumber := DecodeU32(bytes.value).value;
      }
      nonces := LoadMap(store, PREFIX_NONCE, DecodeAccount, DecodeU32);
    }

    function Nonce(who: AccountId32): U32
      reads this
    {
      NonceOf(nonces, who)
    }

    /** Adds one to the height and persists it; `false` is the panic on overflow. */
    method IncBlockNumber() returns (ok: bool)
      requires store.Valid()
      modifies this, store
      ensures store.Valid() && nonces == old(nonces)
      ensures ok <==> old(blockNumber) < U32_MAX
      ensures ok ==> blockNumber == old(blockNumber) + 1
                     && store.log == old(store.log) + [EncodeWrite(PutHeight(blockNumber))]
      ensures !ok ==> blockNumber == old(blockNumber) && store.log == old(store.log)
    {
      if blockNumber == U32_MAX { return false; }
      blockNumber := blockNumber + 1;
      store.Put(PREFIX_BLOCK_NUMBER, EncodeU32(blockNumber));
      ok := true;
    }

    /** Takes `who` past its nonce and persists it; `false` is the panic on overflow. */
    method IncNonce(who: AccountId32) returns (ok: bool)
      requires store.Valid()
      modifies this, store
      ensures store.Valid() && blockNumber == old(blockNumber)
      ensures ok <==> old(NonceOf(nonces, who)) < U32_MAX
      ensures ok ==> nonces == old(nonces)[who := old(NonceOf(nonces, who)) + 1]
                     && store.log == old(store.log) + [EncodeWrite(PutNonce(who, old(NonceOf(nonces, who)) + 1))]
      ensures !ok ==> nonces == old(nonces) && store.log == old(store.log)
    {
      var nonce := Nonce(who);
      if nonce == U32_MAX { return false; }
      nonces := nonces[who := nonce + 1];
      store.Put(PREFIX_NONCE + who.bytes, EncodeU32(nonce + 1));
      ok := true;
    }
  }

  class BalancesPallet {
    const store: KvStore
    var balances: map<AccountId32, U128>

    constructor New(store: KvStore)
      ensures this.store == store
      ensures Loaded(store.data, PREFIX_BALANCE, DecodeAccount, DecodeU128, balances)
    {
      this.store := store;
      new;
      balances := LoadMap(store, PREFIX_BALANCE, DecodeAccount, DecodeU128);
    }

    function Balance(who: AccountId32): U128
      reads this
    {
      BalanceOf(balances, who)
    }

    method SetBalance(who: AccountId32, amount: U128)
      requires store.Valid()
      modifies this, store
      ensures store.Valid() && balances == old(balances)[who := amount]
      ensures store.log == old(store.log) + [EncodeWrite(PutBalance(who, amount))]
    {
      balances := balances[who := amount];
      store.Put(PREFIX_BALANCE + who.bytes, EncodeU128(amount));
    }

    method Transfer(caller: AccountId32, to: AccountId32, amount: U128, ghost s: State) returns (r: DispatchResult)
      requires store.Valid() && s.balances == balances
      modifies this, store
      ensures var d := TransferEffect(s, caller, to, amount);
              && store.Valid() && balances == d.state.balances && r == d.result
              && store.log == old(store.log) + EncodeWrites(d.writes)
    {
      TransferBytes(store.log, s, caller, to, amount);
      var callerBalance := Balance(caller);
      var toBalance := Balance(to);
      if callerBalance < amount { return Err("Not enough funds."); }
      if toBalance + amount > U128_MAX { return Err("Overflow"); }
      SetBalance(caller, callerBalance - amount);
      SetBalance(to, toBalance + amount);
      r := Ok;
    }
  }

  class PoePallet {
    const store: KvStore
    var claims: map<Content, AccountId32>

    constructor New(store: KvStore)
      ensures this.store == store
      ensures Loaded(store.data, PREFIX_POE, DecodeContent, DecodeAccount, claims)
    {
      this.store := store;
      new;
      claims := LoadMap(store, PREFIX_POE, DecodeContent, DecodeAccount);
    }

    /** `keys().last()` of the ordered map. */
    method LastClaim() returns (last: Content)
      requires claims != map[]
      ensures IsGreatest(last, claims.Keys)
    {
      var rest := claims.Keys;
      last :| last in rest;
      rest := rest - {last};
      while rest != {}
        invariant rest <= claims.Keys && last in claims && last !in rest
        invariant IsGreatest(last, claims.Keys - rest)
        decreases rest
      {
        var k :| k in rest;
        LexTotal(k.utf8, last.utf8);
        ghost var seen := claims.Keys - rest;
        rest := rest - {k};
        assert claims.Keys - rest == seen + {k};
        if Below(last, k) {
          forall j | j in claims.Keys - rest && j != k
            ensures Below(j, k)
          {
            if j != last { LexTransitive(j.utf8, last.utf8, k.utf8); }
          }
          last := k;
        }
      }
      assert claims.Keys - rest == claims.Keys;
    }

    method CreateClaim(caller: AccountId32, claim: Content, ghost s: State) returns (r: DispatchResult)
      requires store.Valid() && s.claims == claims
      modifies this, store
      ensures var d := CreateEffect(s, caller, claim);
              && store.Valid() && claims == d.state.claims && r == d.result
              && store.log == old(store.log) + EncodeWrites(d.writes)
    {
      ghost var was := store.log;
      CreateBytes(was, s, caller, claim);
      if claim in claims { return Err("this content is already claimed"); }
      claims := claims[claim := caller];
      assert claim in claims;
      var last := LastClaim();
      GreatestUnique(last, Greatest(claims.Keys), claims.Keys);
      store.Put(PREFIX_POE + EncodeContent(last), claims[last].bytes);
      assert store.log == was + [EncodeWrite(PutClaim(last, claims[last]))];
      r := Ok;
    }

    method RevokeClaim(caller: AccountId32, claim: Content, ghost s: State) returns (r: DispatchResult)
      requires store.Valid() && s.claims == claims
      modifies this, store
      ensures var d := RevokeEffect(s, caller, claim);
              && store.Valid() && claims == d.state.claims && r == d.result
              && store.log == old(store.log) + EncodeWrites(d.writes)
    {
      ghost var was := store.log;
      RevokeBytes(was, s, caller, claim);
      if claim !in claims { return Err("claim does not exist"); }
      if claims[claim] != caller { return Err("caller is not owner"); }
      claims := claims - {claim};
      store.Delete(PREFIX_POE + EncodeContent(claim));
      assert store.log == was + [EncodeWrite(DeleteClaim(claim))];
      r := Ok;
    }
  }
}
