/** The persistent store seen as the entries it holds, and the ordered writes that change it.
    A crash keeps a prefix of the writes. StorageKeys ties this view to the bytes. */
module Storage {
  import opened Types

  datatype Write =
    | PutHeight(height: U32)
    | PutNonce(who: AccountId32, nonce: U32)
    | PutBalance(account: AccountId32, amount: U128)
    | PutClaim(claim: Content, owner: AccountId32)
    | DeleteClaim(claim: Content)

  datatype Store = Store(
    height: Option<U32>,
    nonces: map<AccountId32, U32>,
    balances: map<AccountId32, U128>,
    claims: map<Content, AccountId32>)

  const EMPTY := Store(None, map[], map[], map[])

  function Apply(st: Store, w: Write): Store {
    match w
    case PutHeight(h) => st.(height := Some(h))
    case PutNonce(a, n) => st.(nonces := st.nonces[a := n])
    case PutBalance(a, b) => st.(balances := st.balances[a := b])
    case PutClaim(c, o) => st.(claims := st.claims[c := o])
    case DeleteClaim(c) => st.(claims := st.claims - {c})
  }

  function Replay(st: Store, ws: seq<Write>): Store {
    if ws == [] then st else Apply(Replay(st, ws[..|ws| - 1]), ws[|ws| - 1])
  }

  lemma {:induction false} ReplayConcat(st: Store, a: seq<Write>, b: seq<Write>)
    ensures Replay(st, a + b) == Replay(Replay(st, a), b)
  {
    if b == [] {
      assert a + b == a;
    } else {
      ReplayConcat(st, a, b[..|b| - 1]);
      assert (a + b)[..|a + b| - 1] == a + b[..|b| - 1];
    }
  }

  /** `Runtime::new`: every pallet rebuilds its map from the store (macros/src/runtime/expand.rs:17). */
  function Load(st: Store): State {
    State(if st.height.Some? then st.height.value else 0, st.nonces, st.balances, st.claims)
  }

  /** A write and, for the effects of a call, the (signer, nonce) it belongs to. */
  datatype CallId = CallId(signer: AccountId32, nonce: U32)
  datatype Entry = Entry(write: Write, origin: Option<CallId>)

  function Writes(log: seq<Entry>): (ws: seq<Write>)
    ensures |ws| == |log|
  {
    seq(|log|, i requires 0 <= i < |log| => log[i].write)
  }

  function Tagged(ws: seq<Write>, origin: Option<CallId>): (log: seq<Entry>)
    ensures |log| == |ws|
  {
    seq(|ws|, i requires 0 <= i < |ws| => Entry(ws[i], origin))
  }

  lemma WritesConcat(a: seq<Entry>, b: seq<Entry>)
    ensures Writes(a + b) == Writes(a) + Writes(b)
  {}

  function After(st: Store, log: seq<Entry>): Store { Replay(st, Writes(log)) }

  lemma AfterConcat(st: Store, a: seq<Entry>, b: seq<Entry>)
    ensures After(st, a + b) == After(After(st, a), b)
  {
    WritesConcat(a, b);
    ReplayConcat(st, Writes(a), Writes(b));
  }

  /** What a crash after `kept` of the writes leaves. */
  function Kept(log: seq<Entry>, kept: nat): (p: seq<Entry>)
    ensures p <= log && |p| == if kept <= |log| then kept else |log|
  {
    if kept <= |log| then log[..kept] else log
  }
}
