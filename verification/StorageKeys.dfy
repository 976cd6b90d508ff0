/** The bytes behind the store: key prefixes, key and value encodings, and why the four kinds of entry
    never get in each other's way (src/system.rs, src/balances.rs, src/proof_of_existence.rs). */
module StorageKeys {
  import opened Types
  import opened Scale
  import opened ScaleNumbers
  import opened Storage

  type ByteMap = map<Bytes, Bytes>

  predicate IsAscii(s: string) { forall i :: 0 <= i < |s| ==> s[i] as int < 0x80 }

  function Ascii(s: string): (b: Bytes)
    requires IsAscii(s)
    ensures |b| == |s| && forall i :: 0 <= i < |s| ==> b[i] == s[i] as int
  {
    seq(|s|, i requires 0 <= i < |s| => s[i] as int)
  }

  const PREFIX_BLOCK_NUMBER: Bytes := Ascii("system:block_number")
  const PREFIX_NONCE: Bytes := Ascii("system:nonce:")
  const PREFIX_BALANCE: Bytes := Ascii("balances:")
  const PREFIX_POE: Bytes := Ascii("poe:")

  /** What an entry of the store is about. */
  datatype Name =
    | Height
    | Nonce(who: AccountId32)
    | Balance(account: AccountId32)
    | Claim(claim: Content)

  function Key(n: Name): Bytes {
    match n
    case Height => PREFIX_BLOCK_NUMBER
    case Nonce(a) => PREFIX_NONCE + a.bytes
    case Balance(a) => PREFIX_BALANCE + a.bytes
    case Claim(c) => PREFIX_POE + EncodeContent(c)
  }

  function ValueAt(st: Store, n: Name): Option<Bytes> {
    match n
    case Height => if st.height.Some? then Some(EncodeU32(st.height.value)) else None
    case Nonce(a) => if a in st.nonces then Some(EncodeU32(st.nonces[a])) else None
    case Balance(a) => if a in st.balances then Some(EncodeU128(st.balances[a])) else None
    case Claim(c) => if c in st.claims then Some(st.claims[c].bytes) else None
  }

  /** Scanning with `prefix` and skipping the key that is the prefix itself, as every `new` does. */
  predicate Scanned(prefix: Bytes, key: Bytes) { prefix <= key && |prefix| < |key| }

  /** The scan of a pallet's prefix meets exactly that pallet's keys. */
  lemma ScansSeparate(n: Name)
    ensures Scanned(PREFIX_NONCE, Key(n)) <==> n.Nonce?
    ensures Scanned(PREFIX_BALANCE, Key(n)) <==> n.Balance?
    ensures Scanned(PREFIX_POE, Key(n)) <==> n.Claim?
    ensures n.Nonce? ==> Key(n)[|PREFIX_NONCE|..] == n.who.bytes
    ensures n.Balance? ==> Key(n)[|PREFIX_BALANCE|..] == n.account.bytes
    ensures n.Claim? ==> Key(n)[|PREFIX_POE|..] == EncodeContent(n.claim)
  {
    assert PREFIX_BLOCK_NUMBER[7] == 98 && PREFIX_NONCE[7] == 110;
    assert PREFIX_BLOCK_NUMBER[0] == 115 && PREFIX_NONCE[0] == 115 && PREFIX_BALANCE[0] == 98 && PREFIX_POE[0] == 112;
    var k := Key(n);
    match n
    case Height =>
    case Nonce(a) => assert k[7] == 110 && k[0] == 115 && PREFIX_NONCE <= k;
    case Balance(a) => assert k[0] == 98 && PREFIX_BALANCE <= k;
    case Claim(c) => assert k[0] == 112 && PREFIX_POE <= k;
  }

  /** Distinct entries have distinct keys, over all pallets. */
  lemma KeysDistinct(m: Name, n: Name)
    ensures Key(m) == Key(n) <==> m == n
  {
    if Key(m) == Key(n) {
      ScansSeparate(m);
      ScansSeparate(n);
      if m.Claim? {
        ContentRoundTrip(m.claim, []);
        ContentRoundTrip(n.claim, []);
      }
    }
  }

  // ---- bytes represent entries -------------------------------------------------------------------

  datatype ByteWrite = Put(key: Bytes, value: Bytes) | Delete(key: Bytes)

  function OnBytes(m: ByteMap, w: ByteWrite): ByteMap {
    match w
    case Put(k, v) => m[k := v]
    case Delete(k) => m - {k}
  }

  function ReplayBytes(m: ByteMap, ws: seq<ByteWrite>): ByteMap {
    if ws == [] then m else OnBytes(ReplayBytes(m, ws[..|ws| - 1]), ws[|ws| - 1])
  }

  function NameOf(w: Write): Name {
    match w
    case PutHeight(_) => Height
    case PutNonce(a, _) => Nonce(a)
    case PutBalance(a, _) => Balance(a)
    case PutClaim(c, _) => Claim(c)
    case DeleteClaim(c) => Claim(c)
  }

  function EncodeWrite(w: Write): ByteWrite {
    match w
    case PutHeight(h) => Put(Key(Height), EncodeU32(h))
    case PutNonce(a, n) => Put(Key(Nonce(a)), EncodeU32(n))
    case PutBalance(a, b) => Put(Key(Balance(a)), EncodeU128(b))
    case PutClaim(c, o) => Put(Key(Claim(c)), o.bytes)
    case DeleteClaim(c) => Delete(Key(Claim(c)))
  }

  function EncodeWrites(ws: seq<Write>): (bs: seq<ByteWrite>)
    ensures |bs| == |ws|
  {
    seq(|ws|, i requires 0 <= i < |ws| => EncodeWrite(ws[i]))
  }

  function Lookup(m: ByteMap, k: Bytes): Option<Bytes> { if k in m then Some(m[k]) else None }

  /** The byte map holds the entries of `st` under their keys and nothing else. */
  ghost predicate Represents(m: ByteMap, st: Store) {
    && (forall n :: Lookup(m, Key(n)) == ValueAt(st, n))
    && (forall k :: k in m ==> exists n :: k == Key(n))
  }

  lemma WriteRepresents(m: ByteMap, st: Store, w: Write)
    requires Represents(m, st)
    ensures Represents(OnBytes(m, EncodeWrite(w)), Apply(st, w))
  {
    var after := OnBytes(m, EncodeWrite(w));
    forall n
      ensures Lookup(after, Key(n)) == ValueAt(Apply(st, w), n)
    {
      assert Lookup(m, Key(n)) == ValueAt(st, n);
      WriteAt(m, st, w, n);
    }
    WriteNamed(w);
    forall k | k in after
      ensures exists n :: k == Key(n)
    {
      assert k in m || k == Key(NameOf(w));
    }
  }

  lemma WriteNamed(w: Write)
    ensures EncodeWrite(w).key == Key(NameOf(w))
  {}

  lemma WriteAt(m: ByteMap, st: Store, w: Write, n: Name)
    requires Lookup(m, Key(n)) == ValueAt(st, n)
    ensures Lookup(OnBytes(m, EncodeWrite(w)), Key(n)) == ValueAt(Apply(st, w), n)
  {
    WriteNamed(w);
    KeysDistinct(n, NameOf(w));
  }

  /** Cutting and replaying writes commutes with their byte form: what is proved of stores of entries holds
      of the bytes a crash leaves. */
  lemma {:induction false} ReplayRepresents(m: ByteMap, st: Store, ws: seq<Write>)
    requires Represents(m, st)
    ensures Represents(ReplayBytes(m, EncodeWrites(ws)), Replay(st, ws))
  {
    if ws != [] {
      var n := |ws| - 1;
      ReplayRepresents(m, st, ws[..n]);
      assert EncodeWrites(ws)[..n] == EncodeWrites(ws[..n]);
      WriteRepresents(ReplayBytes(m, EncodeWrites(ws[..n])), Replay(st, ws[..n]), ws[n]);
    }
  }

  lemma {:induction false} ReplayBytesConcat(m: ByteMap, a: seq<ByteWrite>, b: seq<ByteWrite>)
    ensures ReplayBytes(m, a + b) == ReplayBytes(ReplayBytes(m, a), b)
  {
    if b == [] {
      assert a + b == a;
    } else {
      ReplayBytesConcat(m, a, b[..|b| - 1]);
      assert (a + b)[..|a + b| - 1] == a + b[..|b| - 1];
    }
  }

  // ---- loading -----------------------------------------------------------------------------------

  /** The loop of every `new` takes the entry under `key` into its map: a longer key with the prefix whose
      rest and whose value both decode, bytes left over being ignored. */
  predicate Taken<K, V>(m: ByteMap, prefix: Bytes, dk: Bytes -> Parsed<K>, dv: Bytes -> Parsed<V>, key: Bytes) {
    key in m && Scanned(prefix, key) && dk(key[|prefix|..]).Parsed? && dv(m[key]).Parsed?
  }

  /** The entry under `key` is taken and binds `k`. */
  predicate Binds<K(==), V>(m: ByteMap, prefix: Bytes, dk: Bytes -> Parsed<K>, dv: Bytes -> Parsed<V>,
                            key: Bytes, k: K)
  {
    Taken(m, prefix, dk, dv, key) && dk(key[|prefix|..]).value == k
  }

  /** Of the entries that bind `k`, the one whose key comes last. */
  ghost predicate LastBinds<K, V>(m: ByteMap, prefix: Bytes, dk: Bytes -> Parsed<K>, dv: Bytes -> Parsed<V>,
                                      key: Bytes, k: K) {
    && Binds(m, prefix, dk, dv, key, k)
    && forall other :: Binds(m, prefix, dk, dv, other, k) && other != key ==> LexLess(other, key)
  }

  /** `r` is the result of that loop over the entries in the order of their keys: it has a key for every entry
      taken, and of several entries that bind one key the last gives the value. */
  ghost predicate Loaded<K, V>(m: ByteMap, prefix: Bytes, dk: Bytes -> Parsed<K>, dv: Bytes -> Parsed<V>,
                               r: map<K, V>)
  {
    && (forall key :: Taken(m, prefix, dk, dv, key) ==> dk(key[|prefix|..]).value in r)
    && (forall k :: k in r ==> exists key :: LastBinds(m, prefix, dk, dv, key, k) && dv(m[key]).value == r[k])
  }

  lemma LastBindsOnce<K, V>(m: ByteMap, prefix: Bytes, dk: Bytes -> Parsed<K>, dv: Bytes -> Parsed<V>,
                            x: Bytes, y: Bytes, k: K)
    requires LastBinds(m, prefix, dk, dv, x, k) && LastBinds(m, prefix, dk, dv, y, k)
    ensures x == y
  {
    LexTotal(x, y);
  }

  lemma LoadedWithin<K(!new), V>(m: ByteMap, prefix: Bytes, dk: Bytes -> Parsed<K>, dv: Bytes -> Parsed<V>,
                                 r: map<K, V>, q: map<K, V>)
    requires Loaded(m, prefix, dk, dv, r) && Loaded(m, prefix, dk, dv, q)
    ensures forall k :: k in r ==> k in q && r[k] == q[k]
  {
    forall k | k in r
      ensures k in q && r[k] == q[k]
    {
      var x :| LastBinds(m, prefix, dk, dv, x, k) && dv(m[x]).value == r[k];
      assert Taken(m, prefix, dk, dv, x);
      var y :| LastBinds(m, prefix, dk, dv, y, k) && dv(m[y]).value == q[k];
      LastBindsOnce(m, prefix, dk, dv, x, y, k);
    }
  }

  /** Whatever the bytes, there is one result. */
  lemma LoadedOnce<K(!new), V>(m: ByteMap, prefix: Bytes, dk: Bytes -> Parsed<K>, dv: Bytes -> Parsed<V>,
                               r: map<K, V>, q: map<K, V>)
    requires Loaded(m, prefix, dk, dv, r) && Loaded(m, prefix, dk, dv, q)
    ensures r == q
  {
    LoadedWithin(m, prefix, dk, dv, r, q);
    LoadedWithin(m, prefix, dk, dv, q, r);
  }

  function LoadedHeight(m: ByteMap): U32 {
    if PREFIX_BLOCK_NUMBER in m && DecodeU32(m[PREFIX_BLOCK_NUMBER]).Parsed?
    then DecodeU32(m[PREFIX_BLOCK_NUMBER]).value else 0
  }

  ghost predicate LoadedState(m: ByteMap, s: State) {
    && s.height == LoadedHeight(m)
    && Loaded(m, PREFIX_NONCE, DecodeAccount, DecodeU32, s.nonces)
    && Loaded(m, PREFIX_BALANCE, DecodeAccount, DecodeU128, s.balances)
    && Loaded(m, PREFIX_POE, DecodeContent, DecodeAccount, s.claims)
  }

  /** `Runtime::new` on any bytes, also ones the program never writes, has one result. */
  lemma LoadedStateOnce(m: ByteMap, s: State, t: State)
    requires LoadedState(m, s) && LoadedState(m, t)
    ensures s == t
  {
    LoadedOnce(m, PREFIX_NONCE, DecodeAccount, DecodeU32, s.nonces, t.nonces);
    LoadedOnce(m, PREFIX_BALANCE, DecodeAccount, DecodeU128, s.balances, t.balances);
    LoadedOnce(m, PREFIX_POE, DecodeContent, DecodeAccount, s.claims, t.claims);
  }

  predicate TakenAs<K(==), V(==)>(m: ByteMap, prefix: Bytes, dk: Bytes -> Parsed<K>, dv: Bytes -> Parsed<V>,
                                  key: Bytes, k: K, v: V)
  {
    Binds(m, prefix, dk, dv, key, k) && dv(m[key]).value == v
  }

  lemma LoadedIs<K(!new), V(!new)>(m: ByteMap, prefix: Bytes, dk: Bytes -> Parsed<K>, dv: Bytes -> Parsed<V>,
                                   r: map<K, V>, truth: map<K, V>, keyOf: K -> Bytes)
    requires Loaded(m, prefix, dk, dv, r)
    requires forall k :: k in truth ==> TakenAs(m, prefix, dk, dv, keyOf(k), k, truth[k])
    requires forall key :: Taken(m, prefix, dk, dv, key) ==> exists k :: k in truth && key == keyOf(k)
    ensures r == truth
  {
    forall k | k in truth
      ensures k in r
    {
      assert TakenAs(m, prefix, dk, dv, keyOf(k), k, truth[k]);
    }
    forall k | k in r
      ensures k in truth && r[k] == truth[k]
    {
      var key :| LastBinds(m, prefix, dk, dv, key, k) && dv(m[key]).value == r[k];
      var j :| j in truth && key == keyOf(j);
      assert TakenAs(m, prefix, dk, dv, keyOf(j), j, truth[j]);
    }
  }

  lemma Named(m: ByteMap, st: Store, key: Bytes) returns (n: Name)
    requires Represents(m, st) && key in m
    ensures key == Key(n)
  {
    n :| key == Key(n);
  }

  lemma NonceTaken(m: ByteMap, st: Store, a: AccountId32)
    requires Represents(m, st)
    ensures var key := Key(Nonce(a));
            && Scanned(PREFIX_NONCE, key) && DecodeAccount(key[|PREFIX_NONCE|..]) == Parsed(a, [])
            && (key in m <==> a in st.nonces)
            && (a in st.nonces ==> DecodeU32(m[key]) == Parsed(st.nonces[a], []))
  {
    ScansSeparate(Nonce(a));
    Untailed(a.bytes);
    AccountRoundTrip(a, []);
    assert Lookup(m, Key(Nonce(a))) == ValueAt(st, Nonce(a));
    if a in st.nonces {
      Untailed(EncodeU32(st.nonces[a]));
      U32RoundTrip(st.nonces[a], []);
    }
  }

  lemma LoadsNonces(m: ByteMap, st: Store, r: map<AccountId32, U32>)
    requires Represents(m, st) && Loaded(m, PREFIX_NONCE, DecodeAccount, DecodeU32, r)
    ensures r == st.nonces
  {
    var keyOf := (a: AccountId32) => Key(Nonce(a));
    forall a | a in st.nonces
      ensures TakenAs(m, PREFIX_NONCE, DecodeAccount, DecodeU32, keyOf(a), a, st.nonces[a])
    {
      NonceTaken(m, st, a);
    }
    forall key | Taken(m, PREFIX_NONCE, DecodeAccount, DecodeU32, key)
      ensures exists a :: a in st.nonces && key == keyOf(a)
    {
      var n := Named(m, st, key);
      ScansSeparate(n);
      NonceTaken(m, st, n.who);
      assert key == keyOf(n.who);
    }
    LoadedIs(m, PREFIX_NONCE, DecodeAccount, DecodeU32, r, st.nonces, keyOf);
  }

  lemma BalanceTaken(m: ByteMap, st: Store, a: AccountId32)
    requires Represents(m, st)
    ensures var key := Key(Balance(a));
            && Scanned(PREFIX_BALANCE, key) && DecodeAccount(key[|PREFIX_BALANCE|..]) == Parsed(a, [])
            && (key in m <==> a in st.balances)
            && (a in st.balances ==> DecodeU128(m[key]) == Parsed(st.balances[a], []))
  {
    ScansSeparate(Balance(a));
    Untailed(a.bytes);
    AccountRoundTrip(a, []);
    assert Lookup(m, Key(Balance(a))) == ValueAt(st, Balance(a));
    if a in st.balances {
      Untailed(EncodeU128(st.balances[a]));
      U128RoundTrip(st.balances[a], []);
    }
  }

  lemma LoadsBalances(m: ByteMap, st: Store, r: map<AccountId32, U128>)
    requires Represents(m, st) && Loaded(m, PREFIX_BALANCE, DecodeAccount, DecodeU128, r)
    ensures r == st.balances
  {
    var keyOf := (a: AccountId32) => Key(Balance(a));
    forall a | a in st.balances
      ensures TakenAs(m, PREFIX_BALANCE, DecodeAccount, DecodeU128, keyOf(a), a, st.balances[a])
    {
      BalanceTaken(m, st, a);
    }
    forall key | Taken(m, PREFIX_BALANCE, DecodeAccount, DecodeU128, key)
      ensures exists a :: a in st.balances && key == keyOf(a)
    {
      var n := Named(m, st, key);
      ScansSeparate(n);
      BalanceTaken(m, st, n.account);
      assert key == keyOf(n.account);
    }
    LoadedIs(m, PREFIX_BALANCE, DecodeAccount, DecodeU128, r, st.balances, keyOf);
  }

  lemma ClaimTaken(m: ByteMap, st: Store, c: Content)
    requires Represents(m, st)
    ensures var key := Key(Claim(c));
            && Scanned(PREFIX_POE, key) && DecodeContent(key[|PREFIX_POE|..]) == Parsed(c, [])
            && (key in m <==> c in st.claims)
            && (c in st.claims ==> DecodeAccount(m[key]) == Parsed(st.claims[c], []))
  {
    ScansSeparate(Claim(c));
    Untailed(EncodeContent(c));
    ContentRoundTrip(c, []);
    assert Lookup(m, Key(Claim(c))) == ValueAt(st, Claim(c));
    if c in st.claims {
      Untailed(st.claims[c].bytes);
      AccountRoundTrip(st.claims[c], []);
    }
  }

  lemma LoadsClaims(m: ByteMap, st: Store, r: map<Content, AccountId32>)
    requires Represents(m, st) && Loaded(m, PREFIX_POE, DecodeContent, DecodeAccount, r)
    ensures r == st.claims
  {
    var keyOf := (c: Content) => Key(Claim(c));
    forall c | c in st.claims
      ensures TakenAs(m, PREFIX_POE, DecodeContent, DecodeAccount, keyOf(c), c, st.claims[c])
    {
      ClaimTaken(m, st, c);
    }
    forall key | Taken(m, PREFIX_POE, DecodeContent, DecodeAccount, key)
      ensures exists c :: c in st.claims && key == keyOf(c)
    {
      var n := Named(m, st, key);
      ScansSeparate(n);
      ClaimTaken(m, st, n.claim);
      assert key == keyOf(n.claim);
    }
    LoadedIs(m, PREFIX_POE, DecodeContent, DecodeAccount, r, st.claims, keyOf);
  }

  /** `Runtime::new` on the bytes finds exactly the entries they represent. */
  lemma LoadsExactly(m: ByteMap, st: Store, s: State)
    requires Represents(m, st) && LoadedState(m, s)
    ensures s == Load(st)
  {
    LoadsNonces(m, st, s.nonces);
    LoadsBalances(m, st, s.balances);
    LoadsClaims(m, st, s.claims);
    assert Lookup(m, Key(Height)) == ValueAt(st, Height);
    if st.height.Some? {
      Untailed(EncodeU32(st.height.value));
      U32RoundTrip(st.height.value, []);
    }
  }
}
