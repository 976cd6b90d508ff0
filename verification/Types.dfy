/** The values the chain is made of: bytes, bounded integers, accounts, calls, extrinsics, blocks
    and the in-memory state of the three pallets (src/support.rs, src/lib.rs). */
module Types {

  datatype Option<+T> = None | Some(value: T)

  /** Concatenation may be regrouped. */
  lemma Assoc<T>(x: seq<T>, y: seq<T>, z: seq<T>)
    ensures (x + y) + z == x + (y + z)
  {}

  lemma Rejoin<T>(xs: seq<T>)
    requires xs != []
    ensures xs[..|xs| - 1] + [xs[|xs| - 1]] == xs
  {}

  lemma Untailed<T>(b: seq<T>)
    ensures b + [] == b
  {}

  lemma MulGrows(a: nat, b: nat, n: nat)
    ensures a <= b ==> a * n <= b * n
  {
    if a <= b { assert b * n == a * n + (b - a) * n; }
  }

  /** Quotient and remainder are unique. */
  lemma DivMod(q: nat, n: nat, r: nat)
    requires r < n
    ensures (q * n + r) % n == r && (q * n + r) / n == q
  {
    var m := q * n + r;
    var d := m / n;
    assert m == d * n + m % n;
    MulGrows(d + 1, q, n);
    MulGrows(q + 1, d, n);
  }

  type Byte = x: int | 0 <= x < 0x100
  type Bytes = seq<Byte>

  const U32_MAX := 0xFFFF_FFFF
  const U128_MAX := 0xFFFF_FFFF_FFFF_FFFF_FFFF_FFFF_FFFF_FFFF

  type U32 = x: int | 0 <= x <= U32_MAX
  type U128 = x: int | 0 <= x <= U128_MAX

  type Bytes32 = b: Bytes | |b| == 32 witness seq(32, i => 0)
  type Bytes64 = b: Bytes | |b| == 64 witness seq(64, i => 0)

  /** The length in bytes of the UTF-8 sequence that starts `b`, or 0 when none does
      (the table of section 4 of RFC 3629). */
  function Utf8Lead(b: Bytes): (n: nat)
    ensures n <= |b|
  {
    if |b| >= 1 && b[0] <= 0x7F then 1
    else if |b| >= 2 && 0xC2 <= b[0] <= 0xDF && IsTail(b[1]) then 2
    else if |b| >= 3 && IsTail(b[2]) &&
            (|| (b[0] == 0xE0 && 0xA0 <= b[1] <= 0xBF)
             || (0xE1 <= b[0] <= 0xEC && IsTail(b[1]))
             || (b[0] == 0xED && 0x80 <= b[1] <= 0x9F)
             || (0xEE <= b[0] <= 0xEF && IsTail(b[1]))) then 3
    else if |b| >= 4 && IsTail(b[2]) && IsTail(b[3]) &&
            (|| (b[0] == 0xF0 && 0x90 <= b[1] <= 0xBF)
             || (0xF1 <= b[0] <= 0xF3 && IsTail(b[1]))
             || (b[0] == 0xF4 && 0x80 <= b[1] <= 0x8F)) then 4
    else 0
  }

  predicate IsTail(x: Byte) { 0x80 <= x <= 0xBF }

  predicate ValidUtf8(b: Bytes)
    decreases |b|
  {
    b == [] || (Utf8Lead(b) > 0 && ValidUtf8(b[Utf8Lead(b)..]))
  }

  /** A Rust `String` that a `u32` length prefix can describe. */
  type Utf8 = b: Bytes | |b| <= U32_MAX && ValidUtf8(b) witness []

  datatype AccountId32 = AccountId32(bytes: Bytes32)
  datatype Content = Content(utf8: Utf8)

  datatype BalancesCall = Transfer(to: AccountId32, amount: U128)
  datatype PoeCall = CreateClaim(claim: Content) | RevokeClaim(claim: Content)
  datatype RuntimeCall = Balances(balances: BalancesCall) | ProofOfExistence(poe: PoeCall)

  datatype Extrinsic = Extrinsic(signer: AccountId32, signature: Bytes64, nonce: U32, call: RuntimeCall)
  datatype Header = Header(blockNumber: U32)
  datatype Block = Block(header: Header, extrinsics: seq<Extrinsic>)

  datatype DispatchResult = Ok | Err(message: string)

  /** The in-memory maps of the System, Balances and Proof-of-Existence pallets. */
  datatype State = State(
    height: U32,
    nonces: map<AccountId32, U32>,
    balances: map<AccountId32, U128>,
    claims: map<Content, AccountId32>)

  function NonceOf(nonces: map<AccountId32, U32>, who: AccountId32): U32 {
    if who in nonces then nonces[who] else 0
  }

  function BalanceOf(balances: map<AccountId32, U128>, who: AccountId32): U128 {
    if who in balances then balances[who] else 0
  }

  /** The order of Rust's `String`: lexicographic on the UTF-8 bytes. */
  predicate LexLess(a: Bytes, b: Bytes) {
    b != [] && (a == [] || a[0] < b[0] || (a[0] == b[0] && LexLess(a[1..], b[1..])))
  }

  predicate Below(a: Content, b: Content) { LexLess(a.utf8, b.utf8) }

  /** The strings agree before `i`; there `a` ends, or has the smaller byte. */
  predicate PartsAt(a: Bytes, b: Bytes, i: int) {
    0 <= i <= |a| && i < |b| && a[..i] == b[..i] && (i == |a| || a[i] < b[i])
  }

  lemma {:induction false} PartsIsLess(a: Bytes, b: Bytes, i: int)
    requires PartsAt(a, b, i)
    ensures LexLess(a, b)
  {
    if i > 0 {
      PartsIsLess(a[1..], b[1..], i - 1);
    }
  }

  lemma {:induction false} LessParts(a: Bytes, b: Bytes) returns (i: int)
    requires LexLess(a, b)
    ensures PartsAt(a, b, i)
  {
    if a == [] || a[0] < b[0] {
      i := 0;
    } else {
      var j := LessParts(a[1..], b[1..]);
      i := j + 1;
    }
  }

  /** One string is below another if and only if it is a proper prefix of it or has the smaller byte where they
      first differ. */
  lemma LexLessExactly(a: Bytes, b: Bytes)
    ensures LexLess(a, b) <==> exists i :: PartsAt(a, b, i)
  {
    if LexLess(a, b) { var i := LessParts(a, b); }
    if i :| PartsAt(a, b, i) { PartsIsLess(a, b, i); }
  }

  /** The text of one ASCII character. */
  function Letter(x: Byte): (c: Content)
    requires x <= 0x7F
    ensures c.utf8 == [x]
  {
    assert ValidUtf8([x]) by { assert [x][1..] == []; }
    Content([x])
  }

  lemma {:induction false} LexTotal(a: Bytes, b: Bytes)
    ensures LexLess(a, b) || LexLess(b, a) || a == b
    ensures !(LexLess(a, b) && LexLess(b, a))
    ensures !LexLess(a, a)
  {
    if a != [] && b != [] {
      LexTotal(a[1..], b[1..]);
      if a[0] == b[0] && a[1..] == b[1..] {
        assert a == [a[0]] + a[1..] == b;
      }
    }
    if a != [] { LexTotal(a[1..], a[1..]); }
  }

  lemma {:induction false} LexTransitive(a: Bytes, b: Bytes, c: Bytes)
    requires LexLess(a, b) && LexLess(b, c)
    ensures LexLess(a, c)
  {
    if a != [] && a[0] == b[0] && b[0] == c[0] {
      LexTransitive(a[1..], b[1..], c[1..]);
    }
  }

  ghost predicate IsGreatest(k: Content, ks: set<Content>) {
    k in ks && forall j :: j in ks && j != k ==> Below(j, k)
  }

  lemma {:induction false} GreatestExists(ks: set<Content>)
    requires ks != {}
    ensures exists k :: IsGreatest(k, ks)
  {
    var x :| x in ks;
    if ks == {x} {
      assert IsGreatest(x, ks);
    } else {
      var rest := ks - {x};
      assert ks == rest + {x};
      GreatestExists(rest);
      var g :| IsGreatest(g, rest);
      LexTotal(x.utf8, g.utf8);
      if Below(x, g) {
        assert IsGreatest(g, ks);
      } else {
        forall j | j in ks && j != x
          ensures Below(j, x)
        {
          if j != g { LexTransitive(j.utf8, g.utf8, x.utf8); }
        }
        assert IsGreatest(x, ks);
      }
    }
  }

  lemma GreatestUnique(j: Content, k: Content, ks: set<Content>)
    requires IsGreatest(j, ks) && IsGreatest(k, ks)
    ensures j == k
  {
    LexTotal(j.utf8, k.utf8);
  }

  /** `BTreeMap::keys().last()` of a non-empty map. */
  ghost function Greatest(ks: set<Content>): (k: Content)
    requires ks != {}
    ensures IsGreatest(k, ks)
  {
    GreatestExists(ks);
    var k :| IsGreatest(k, ks);
    k
  }
}
