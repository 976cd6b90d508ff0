/** The SCALE byte form of the wire types (Appendix A.2.2 of the Polkadot Protocol Specification), in the
    field order of src/support.rs and the variant order of the generated enums. A decoder returns the
    value and the bytes it did not read. Every codec below is exact: it accepts precisely the byte
    strings that start with the encoding of a value. */
module Scale {
  import opened Types
  import opened ScaleNumbers

  // ---- accounts ----------------------------------------------------------------------------------

  function DecodeAccount(b: Bytes): Parsed<AccountId32> {
    match Take(b, 32)
    case Failed => Failed
    case Parsed(v, rest) => Parsed(AccountId32(v), rest)
  }

  lemma AccountRoundTrip(a: AccountId32, rest: Bytes)
    ensures DecodeAccount(a.bytes + rest) == Parsed(a, rest)
  {
    Prefix(a.bytes, rest);
  }

  // ---- strings -----------------------------------------------------------------------------------

  function EncodeContent(c: Content): Bytes { EncodeCompact(|c.utf8|) + c.utf8 }

  function DecodeContent(b: Bytes): Parsed<Content> {
    match DecodeCompact(b)
    case Failed => Failed
    case Parsed(n, more) =>
      match Take(more, n)
      case Failed => Failed
      case Parsed(v, rest) => if ValidUtf8(v) then Parsed(Content(v), rest) else Failed
  }

  lemma ContentRoundTrip(c: Content, rest: Bytes)
    ensures DecodeContent(EncodeContent(c) + rest) == Parsed(c, rest)
  {
    assert EncodeContent(c) + rest == EncodeCompact(|c.utf8|) + (c.utf8 + rest);
    CompactRoundTrip(|c.utf8|, c.utf8 + rest);
    Prefix(c.utf8, rest);
  }

  lemma ContentCanonical(b: Bytes)
    requires DecodeContent(b).Parsed?
    ensures b == EncodeContent(DecodeContent(b).value) + DecodeContent(b).rest
  {
    CompactCanonical(b);
    var more := DecodeCompact(b).rest;
    var n := DecodeCompact(b).value;
    assert more == Take(more, n).value + Take(more, n).rest;
  }

  // ---- calls -------------------------------------------------------------------------------------

  function EncodeCall(c: RuntimeCall): Bytes {
    match c
    case Balances(Transfer(to, amount)) => [0, 0] + to.bytes + EncodeU128(amount)
    case ProofOfExistence(CreateClaim(claim)) => [1, 0] + EncodeContent(claim)
    case ProofOfExistence(RevokeClaim(claim)) => [1, 1] + EncodeContent(claim)
  }

  function DecodeCall(b: Bytes): Parsed<RuntimeCall> {
    if |b| < 2 then Failed
    else if b[0] == 0 && b[1] == 0 then
      match DecodeAccount(b[2..])
      case Failed => Failed
      case Parsed(to, more) =>
        (match DecodeU128(more)
         case Failed => Failed
         case Parsed(amount, rest) => Parsed(Balances(Transfer(to, amount)), rest))
    else if b[0] == 1 && b[1] < 2 then
      match DecodeContent(b[2..])
      case Failed => Failed
      case Parsed(claim, rest) =>
        Parsed(ProofOfExistence(if b[1] == 0 then CreateClaim(claim) else RevokeClaim(claim)), rest)
    else Failed
  }

  lemma AfterVariant(i: Byte, j: Byte, body: Bytes, rest: Bytes)
    ensures ([i, j] + body + rest)[0] == i && ([i, j] + body + rest)[1] == j
    ensures ([i, j] + body + rest)[2..] == body + rest
  {}

  lemma CallRoundTrip(c: RuntimeCall, rest: Bytes)
    ensures DecodeCall(EncodeCall(c) + rest) == Parsed(c, rest)
  {
    match c
    case Balances(Transfer(to, amount)) =>
      var last := EncodeU128(amount);
      Assoc([0, 0], to.bytes, last);
      AfterVariant(0, 0, to.bytes + last, rest);
      Assoc(to.bytes, last, rest);
      AccountRoundTrip(to, last + rest);
      U128RoundTrip(amount, rest);
    case ProofOfExistence(CreateClaim(claim)) =>
      AfterVariant(1, 0, EncodeContent(claim), rest);
      ContentRoundTrip(claim, rest);
    case ProofOfExistence(RevokeClaim(claim)) =>
      AfterVariant(1, 1, EncodeContent(claim), rest);
      ContentRoundTrip(claim, rest);
  }

  lemma TransferCanonical(b: Bytes)
    requires DecodeCall(b).Parsed? && b[0] == 0
    ensures b == EncodeCall(DecodeCall(b).value) + DecodeCall(b).rest
  {
    var body, rest := b[2..], DecodeCall(b).rest;
    var to, more := DecodeAccount(body).value, DecodeAccount(body).rest;
    U128Canonical(more);
    var last := EncodeU128(DecodeU128(more).value);
    assert b == [0, 0] + body;
    Assoc(to.bytes, last, rest);
    Assoc([0, 0], to.bytes + last, rest);
    Assoc([0, 0], to.bytes, last);
  }

  lemma ClaimCallDecodes(b: Bytes)
    requires DecodeCall(b).Parsed? && b[0] != 0
    ensures b[0] == 1 && b[1] < 2 && DecodeContent(b[2..]).Parsed?
    ensures DecodeCall(b).rest == DecodeContent(b[2..]).rest
    ensures EncodeCall(DecodeCall(b).value) == [1, b[1]] + EncodeContent(DecodeContent(b[2..]).value)
  {}

  lemma ClaimCallCanonical(b: Bytes)
    requires DecodeCall(b).Parsed? && b[0] != 0
    ensures b == EncodeCall(DecodeCall(b).value) + DecodeCall(b).rest
  {
    ClaimCallDecodes(b);
    var claim, rest := DecodeContent(b[2..]).value, DecodeContent(b[2..]).rest;
    ContentCanonical(b[2..]);
    assert b == [1, b[1]] + b[2..];
    Assoc([1, b[1]], EncodeContent(claim), rest);
  }

  lemma CallCanonical(b: Bytes)
    requires DecodeCall(b).Parsed?
    ensures b == EncodeCall(DecodeCall(b).value) + DecodeCall(b).rest
  {
    if b[0] == 0 { TransferCanonical(b); } else { ClaimCallCanonical(b); }
  }

  // ---- signed payloads ---------------------------------------------------------------------------

  /** The bytes a signature covers: the signer's key, the nonce and the call. */
  function SignedPayload(signer: AccountId32, nonce: U32, call: RuntimeCall): Bytes {
    signer.bytes + EncodeU32(nonce) + EncodeCall(call)
  }

  lemma PayloadParses(signer: AccountId32, nonce: U32, call: RuntimeCall)
    ensures var b := SignedPayload(signer, nonce, call);
            && DecodeAccount(b).Parsed? && DecodeAccount(b).value == signer
            && DecodeU32(DecodeAccount(b).rest).Parsed? && DecodeU32(DecodeAccount(b).rest).value == nonce
            && DecodeCall(DecodeU32(DecodeAccount(b).rest).rest) == Parsed(call, [])
  {
    Assoc(signer.bytes, EncodeU32(nonce), EncodeCall(call));
    AccountRoundTrip(signer, EncodeU32(nonce) + EncodeCall(call));
    U32RoundTrip(nonce, EncodeCall(call));
    CallRoundTrip(call, []);
    assert EncodeCall(call) + [] == EncodeCall(call);
  }

  /** Two extrinsics are signed over the same bytes only if signer, nonce and call all agree. */
  lemma PayloadInjective(a: AccountId32, m: U32, c: RuntimeCall, b: AccountId32, n: U32, d: RuntimeCall)
    ensures SignedPayload(a, m, c) == SignedPayload(b, n, d) <==> a == b && m == n && c == d
  {
    PayloadParses(a, m, c);
    PayloadParses(b, n, d);
  }

  // ---- extrinsics --------------------------------------------------------------------------------

  /** What is left of an encoded extrinsic after signer and signature. */
  function Unsigned(e: Extrinsic): Bytes { EncodeU32(e.nonce) + EncodeCall(e.call) }

  function EncodeExtrinsic(e: Extrinsic): Bytes {
    e.signer.bytes + (e.signature + Unsigned(e))
  }

  function DecodeExtrinsic(b: Bytes): Parsed<Extrinsic> {
    match DecodeAccount(b)
    case Failed => Failed
    case Parsed(signer, b1) =>
      match Take(b1, 64)
      case Failed => Failed
      case Parsed(signature, b2) =>
        match DecodeU32(b2)
        case Failed => Failed
        case Parsed(nonce, b3) =>
          match DecodeCall(b3)
          case Failed => Failed
          case Parsed(call, rest) => Parsed(Extrinsic(signer, signature, nonce, call), rest)
  }

  lemma NonceThenCall(e: Extrinsic, rest: Bytes)
    ensures Unsigned(e) + rest == EncodeU32(e.nonce) + (EncodeCall(e.call) + rest)
    ensures DecodeU32(Unsigned(e) + rest) == Parsed(e.nonce, EncodeCall(e.call) + rest)
    ensures DecodeCall(EncodeCall(e.call) + rest) == Parsed(e.call, rest)
  {
    Assoc(EncodeU32(e.nonce), EncodeCall(e.call), rest);
    U32RoundTrip(e.nonce, EncodeCall(e.call) + rest);
    CallRoundTrip(e.call, rest);
  }

  lemma ExtrinsicSplit(e: Extrinsic, rest: Bytes)
    ensures EncodeExtrinsic(e) + rest == e.signer.bytes + (e.signature + (Unsigned(e) + rest))
  {
    Assoc(e.signer.bytes, e.signature + Unsigned(e), rest);
    Assoc(e.signature, Unsigned(e), rest);
  }

  lemma ExtrinsicRoundTrip(e: Extrinsic, rest: Bytes)
    ensures DecodeExtrinsic(EncodeExtrinsic(e) + rest) == Parsed(e, rest)
  {
    ExtrinsicSplit(e, rest);
    AccountRoundTrip(e.signer, e.signature + (Unsigned(e) + rest));
    Prefix(e.signature, Unsigned(e) + rest);
    NonceThenCall(e, rest);
  }

  lemma ExtrinsicCanonical(b: Bytes)
    requires DecodeExtrinsic(b).Parsed?
    ensures b == EncodeExtrinsic(DecodeExtrinsic(b).value) + DecodeExtrinsic(b).rest
  {
    var e := DecodeExtrinsic(b).value;
    var b1 := DecodeAccount(b).rest;
    var b2 := Take(b1, 64).rest;
    U32Canonical(b2);
    CallCanonical(DecodeU32(b2).rest);
    NonceThenCall(e, DecodeExtrinsic(b).rest);
    ExtrinsicSplit(e, DecodeExtrinsic(b).rest);
  }

  // ---- blocks ------------------------------------------------------------------------------------

  function EncodeAll(xs: seq<Extrinsic>): Bytes {
    if xs == [] then [] else EncodeExtrinsic(xs[0]) + EncodeAll(xs[1..])
  }

  function DecodeMany(b: Bytes, n: nat): (p: Parsed<seq<Extrinsic>>)
    ensures p.Parsed? ==> |p.value| == n
    decreases n
  {
    if n == 0 then Parsed([], b)
    else
      match DecodeExtrinsic(b)
      case Failed => Failed
      case Parsed(e, more) =>
        match DecodeMany(more, n - 1)
        case Failed => Failed
        case Parsed(es, rest) => Parsed([e] + es, rest)
  }

  lemma OneThenMany(b: Bytes, e: Extrinsic, more: Bytes, es: seq<Extrinsic>, rest: Bytes)
    requires DecodeExtrinsic(b) == Parsed(e, more) && DecodeMany(more, |es|) == Parsed(es, rest)
    ensures DecodeMany(b, |es| + 1) == Parsed([e] + es, rest)
  {}

  lemma {:induction false} ManyRoundTrip(xs: seq<Extrinsic>, rest: Bytes)
    ensures DecodeMany(EncodeAll(xs) + rest, |xs|) == Parsed(xs, rest)
  {
    if xs == [] {
      assert EncodeAll(xs) + rest == rest;
    } else {
      var more := EncodeAll(xs[1..]) + rest;
      ManyRoundTrip(xs[1..], rest);
      Assoc(EncodeExtrinsic(xs[0]), EncodeAll(xs[1..]), rest);
      ExtrinsicRoundTrip(xs[0], more);
      OneThenMany(EncodeAll(xs) + rest, xs[0], more, xs[1..], rest);
      assert xs == [xs[0]] + xs[1..];
    }
  }

  lemma {:induction false} ManyCanonical(b: Bytes, n: nat)
    requires DecodeMany(b, n).Parsed?
    ensures b == EncodeAll(DecodeMany(b, n).value) + DecodeMany(b, n).rest
    decreases n
  {
    if n == 0 {
      assert b == [] + b;
    } else {
      ExtrinsicCanonical(b);
      var e := DecodeExtrinsic(b).value;
      var more := DecodeExtrinsic(b).rest;
      ManyCanonical(more, n - 1);
      var es := DecodeMany(more, n - 1).value;
      assert ([e] + es)[1..] == es;
      Assoc(EncodeExtrinsic(e), EncodeAll(es), DecodeMany(b, n).rest);
    }
  }

  function EncodeBlock(k: Block): Bytes
    requires |k.extrinsics| <= U32_MAX
  {
    EncodeU32(k.header.blockNumber) + (EncodeCompact(|k.extrinsics|) + EncodeAll(k.extrinsics))
  }

  function DecodeBlock(b: Bytes): (p: Parsed<Block>)
    ensures p.Parsed? ==> |p.value.extrinsics| <= U32_MAX
  {
    match DecodeU32(b)
    case Failed => Failed
    case Parsed(number, b1) =>
      match DecodeCompact(b1)
      case Failed => Failed
      case Parsed(n, b2) =>
        match DecodeMany(b2, n)
        case Failed => Failed
        case Parsed(xs, rest) => Parsed(Block(Header(number), xs), rest)
  }

  lemma BlockSplit(k: Block, rest: Bytes)
    requires |k.extrinsics| <= U32_MAX
    ensures EncodeBlock(k) + rest ==
            EncodeU32(k.header.blockNumber) + (EncodeCompact(|k.extrinsics|) + (EncodeAll(k.extrinsics) + rest))
  {
    var n := EncodeCompact(|k.extrinsics|);
    var xs := EncodeAll(k.extrinsics);
    Assoc(EncodeU32(k.header.blockNumber), n + xs, rest);
    Assoc(n, xs, rest);
  }

  lemma BlockRoundTrip(k: Block, rest: Bytes)
    requires |k.extrinsics| <= U32_MAX
    ensures DecodeBlock(EncodeBlock(k) + rest) == Parsed(k, rest)
  {
    BlockSplit(k, rest);
    U32RoundTrip(k.header.blockNumber, EncodeCompact(|k.extrinsics|) + (EncodeAll(k.extrinsics) + rest));
    CompactRoundTrip(|k.extrinsics|, EncodeAll(k.extrinsics) + rest);
    ManyRoundTrip(k.extrinsics, rest);
  }

  lemma BlockCanonical(b: Bytes)
    requires DecodeBlock(b).Parsed?
    ensures b == EncodeBlock(DecodeBlock(b).value) + DecodeBlock(b).rest
  {
    var b1 := DecodeU32(b).rest;
    U32Canonical(b);
    CompactCanonical(b1);
    ManyCanonical(DecodeCompact(b1).rest, DecodeCompact(b1).value);
    BlockSplit(DecodeBlock(b).value, DecodeBlock(b).rest);
  }

  /** Decoding is exactly the inverse of encoding: the bytes that decode to `k` and leave `rest` are the
      encoding of `k` followed by `rest`, and no others. */
  lemma BlockDecodesExactly(b: Bytes, k: Block, rest: Bytes)
    requires |k.extrinsics| <= U32_MAX
    ensures DecodeBlock(b) == Parsed(k, rest) <==> b == EncodeBlock(k) + rest
  {
    BlockRoundTrip(k, rest);
    if DecodeBlock(b).Parsed? { BlockCanonical(b); }
  }
}
