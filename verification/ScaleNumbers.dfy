/** The SCALE form of numbers (Appendix A.2.2 of the Polkadot Protocol Specification): little-endian integers
    of fixed width and compact lengths. A decoder returns the value and the bytes it did not read. */
module ScaleNumbers {
  import opened Types

  datatype Parsed<+T> = Failed | Parsed(value: T, rest: Bytes)

  // ---- little-endian integers --------------------------------------------------------------------

  function Pow256(width: nat): (p: nat)
    ensures p > 0
  {
    if width == 0 then 1 else 0x100 * Pow256(width - 1)
  }

  function EncodeLE(n: nat, width: nat): (b: Bytes)
    requires n < Pow256(width)
    ensures |b| == width
  {
    if width == 0 then [] else [n % 0x100] + EncodeLE(n / 0x100, width - 1)
  }

  function DecodeLE(b: Bytes): (n: nat)
    ensures n < Pow256(|b|)
  {
    if b == [] then 0 else b[0] + 0x100 * DecodeLE(b[1..])
  }

  lemma {:induction false} LERoundTrip(n: nat, width: nat)
    requires n < Pow256(width)
    ensures DecodeLE(EncodeLE(n, width)) == n
  {
    if width > 0 {
      LERoundTrip(n / 0x100, width - 1);
      assert EncodeLE(n, width)[1..] == EncodeLE(n / 0x100, width - 1);
    }
  }

  /** The low byte of a number, the rest of it, and the room both need. */
  lemma LowByte(x: Byte, n: nat, all: nat, width: nat)
    requires n < Pow256(width) && all == x + 0x100 * n
    ensures all % 0x100 == x && all / 0x100 == n && all < Pow256(width + 1)
  {}

  lemma EncodeFront(x: Byte, n: nat, all: nat, width: nat)
    requires n < Pow256(width) && all == x + 0x100 * n
    ensures all < Pow256(width + 1)
    ensures EncodeLE(all, width + 1) == [x] + EncodeLE(n, width)
  {
    LowByte(x, n, all, width);
  }

  lemma DecodeFront(b: Bytes)
    requires b != []
    ensures DecodeLE(b) == b[0] + 0x100 * DecodeLE(b[1..])
  {}

  lemma Front(b: Bytes)
    requires b != []
    ensures b == [b[0]] + b[1..]
  {}

  lemma {:induction false} LECanonical(b: Bytes)
    ensures EncodeLE(DecodeLE(b), |b|) == b
  {
    if b != [] {
      LECanonical(b[1..]);
      DecodeFront(b);
      EncodeFront(b[0], DecodeLE(b[1..]), DecodeLE(b), |b| - 1);
      Front(b);
    }
  }

  lemma Widths()
    ensures Pow256(2) == 0x1_0000
    ensures Pow256(4) == U32_MAX + 1
    ensures Pow256(16) == U128_MAX + 1
  {
    assert Pow256(2) == 0x1_0000;
    assert Pow256(4) == 0x1_0000_0000;
    assert Pow256(8) == 0x1_0000_0000_0000_0000;
    assert Pow256(12) == 0x1_0000_0000_0000_0000_0000_0000;
  }

  // ---- fixed-size pieces -------------------------------------------------------------------------

  function Take(b: Bytes, n: nat): (p: Parsed<Bytes>)
    ensures p.Parsed? <==> n <= |b|
    ensures p.Parsed? ==> |p.value| == n && b == p.value + p.rest
  {
    if n <= |b| then Parsed(b[..n], b[n..]) else Failed
  }

  function EncodeU32(n: U32): (b: Bytes)
    ensures |b| == 4
  {
    Widths();
    EncodeLE(n, 4)
  }

  function DecodeU32(b: Bytes): Parsed<U32> {
    match Take(b, 4)
    case Failed => Failed
    case Parsed(v, rest) => Widths(); Parsed(DecodeLE(v), rest)
  }

  function EncodeU128(n: U128): (b: Bytes)
    ensures |b| == 16
  {
    Widths();
    EncodeLE(n, 16)
  }

  function DecodeU128(b: Bytes): Parsed<U128> {
    match Take(b, 16)
    case Failed => Failed
    case Parsed(v, rest) => Widths(); Parsed(DecodeLE(v), rest)
  }

  lemma Prefix(v: Bytes, rest: Bytes)
    ensures Take(v + rest, |v|) == Parsed(v, rest)
  {
    assert (v + rest)[..|v|] == v;
    assert (v + rest)[|v|..] == rest;
  }

  lemma U32RoundTrip(n: U32, rest: Bytes)
    ensures DecodeU32(EncodeU32(n) + rest) == Parsed(n, rest)
  {
    Widths();
    Prefix(EncodeU32(n), rest);
    LERoundTrip(n, 4);
  }

  lemma U32Canonical(b: Bytes)
    requires DecodeU32(b).Parsed?
    ensures b == EncodeU32(DecodeU32(b).value) + DecodeU32(b).rest
  {
    Widths();
    LECanonical(Take(b, 4).value);
  }

  lemma U128RoundTrip(n: U128, rest: Bytes)
    ensures DecodeU128(EncodeU128(n) + rest) == Parsed(n, rest)
  {
    Widths();
    Prefix(EncodeU128(n), rest);
    LERoundTrip(n, 16);
  }

  lemma U128Canonical(b: Bytes)
    requires DecodeU128(b).Parsed?
    ensures b == EncodeU128(DecodeU128(b).value) + DecodeU128(b).rest
  {
    Widths();
    LECanonical(Take(b, 16).value);
  }

  // ---- compact lengths ---------------------------------------------------------------------------

  function EncodeCompact(n: U32): (b: Bytes)
    ensures 1 <= |b| <= 5
  {
    Widths();
    if n < 0x40 then [4 * n]
    else if n < 0x4000 then EncodeLE(4 * n + 1, 2)
    else if n < 0x4000_0000 then EncodeLE(4 * n + 2, 4)
    else [3] + EncodeLE(n, 4)
  }

  /** The two low bits of the first byte choose the mode; a mode is refused for a value that a shorter
      one could hold. */
  function DecodeCompact(b: Bytes): Parsed<U32> {
    Widths();
    if b == [] then Failed
    else
      match b[0] % 4
      case 0 => Parsed(b[0] / 4, b[1..])
      case 1 =>
        (match Take(b, 2)
         case Failed => Failed
         case Parsed(v, rest) =>
           var n := DecodeLE(v) / 4;
           if 0x40 <= n then Parsed(n, rest) else Failed)
      case 2 =>
        (match Take(b, 4)
         case Failed => Failed
         case Parsed(v, rest) =>
           var n := DecodeLE(v) / 4;
           if 0x4000 <= n then Parsed(n, rest) else Failed)
      case _ =>
        if b[0] != 3 then Failed
        else
          match Take(b[1..], 4)
          case Failed => Failed
          case Parsed(v, rest) =>
            var n := DecodeLE(v);
            if 0x4000_0000 <= n then Parsed(n, rest) else Failed
  }

  /** Any first byte of mode `m`, whatever the width, leaves the mode in the low bits. */
  lemma ModeByte(n: nat, m: nat, width: nat, rest: Bytes)
    requires m < 4 && width > 0 && 4 * n + m < Pow256(width)
    ensures (EncodeLE(4 * n + m, width) + rest)[0] % 4 == m
    ensures DecodeLE(EncodeLE(4 * n + m, width)) / 4 == n
  {
    var v := 4 * n + m;
    LERoundTrip(v, width);
    assert (EncodeLE(v, width) + rest)[0] == EncodeLE(v, width)[0] == v % 0x100;
    LowBits(n, m);
  }

  lemma LowBits(n: nat, m: nat)
    requires m < 4
    ensures (4 * n + m) % 0x100 % 4 == m && (4 * n + m) / 4 == n
  {}

  lemma RoundTripInOne(n: U32, rest: Bytes)
    requires n < 0x40
    ensures DecodeCompact([4 * n] + rest) == Parsed(n, rest)
  {
    assert ([4 * n] + rest)[1..] == rest;
  }

  lemma RoundTripInMode(n: U32, m: nat, width: nat, rest: Bytes)
    requires (m == 1 && width == 2 && 0x40 <= n < 0x4000) || (m == 2 && width == 4 && 0x4000 <= n < 0x4000_0000)
    ensures 4 * n + m < Pow256(width)
    ensures DecodeCompact(EncodeLE(4 * n + m, width) + rest) == Parsed(n, rest)
  {
    Widths();
    var v := EncodeLE(4 * n + m, width);
    Prefix(v, rest);
    ModeByte(n, m, width, rest);
  }

  lemma RoundTripInFive(n: U32, rest: Bytes)
    requires 0x4000_0000 <= n
    ensures n < Pow256(4) && DecodeCompact([3] + EncodeLE(n, 4) + rest) == Parsed(n, rest)
  {
    Widths();
    LERoundTrip(n, 4);
    Prefix(EncodeLE(n, 4), rest);
    Assoc([3], EncodeLE(n, 4), rest);
    assert ([3] + (EncodeLE(n, 4) + rest))[1..] == EncodeLE(n, 4) + rest;
  }

  lemma CompactRoundTrip(n: U32, rest: Bytes)
    ensures DecodeCompact(EncodeCompact(n) + rest) == Parsed(n, rest)
  {
    if n < 0x40 {
      RoundTripInOne(n, rest);
    } else if n < 0x4000 {
      RoundTripInMode(n, 1, 2, rest);
    } else if n < 0x4000_0000 {
      RoundTripInMode(n, 2, 4, rest);
    } else {
      RoundTripInFive(n, rest);
    }
  }

  lemma ModeOfLowByte(x: Byte, n: nat, all: nat, m: nat)
    requires x % 4 == m && all == x + 0x100 * n
    ensures all == 4 * (all / 4) + m
  {
    var q := x / 4;
    assert all == 4 * (q + 0x40 * n) + m;
    LowBits(q + 0x40 * n, m);
  }

  /** The mode is in the low bits of what the bytes decode to. */
  lemma ModeOfBytes(v: Bytes, m: nat)
    requires v != [] && v[0] % 4 == m
    ensures DecodeLE(v) == 4 * (DecodeLE(v) / 4) + m
  {
    DecodeFront(v);
    ModeOfLowByte(v[0], DecodeLE(v[1..]), DecodeLE(v), m);
  }

  lemma CanonicalTwoBytes(b: Bytes)
    requires DecodeCompact(b).Parsed? && b[0] % 4 == 1
    ensures b == EncodeCompact(DecodeCompact(b).value) + DecodeCompact(b).rest
  {
    var v := Take(b, 2).value;
    assert v[0] == b[0];
    ModeOfBytes(v, 1);
    LECanonical(v);
    Widths();
  }

  lemma CanonicalFourBytes(b: Bytes)
    requires DecodeCompact(b).Parsed? && b[0] % 4 == 2
    ensures b == EncodeCompact(DecodeCompact(b).value) + DecodeCompact(b).rest
  {
    var v := Take(b, 4).value;
    assert v[0] == b[0];
    ModeOfBytes(v, 2);
    LECanonical(v);
    Widths();
  }

  lemma CanonicalFiveBytes(b: Bytes)
    requires DecodeCompact(b).Parsed? && b[0] % 4 == 3
    ensures b == EncodeCompact(DecodeCompact(b).value) + DecodeCompact(b).rest
  {
    var v, rest := Take(b[1..], 4).value, Take(b[1..], 4).rest;
    Widths();
    LECanonical(v);
    assert b == [3] + b[1..];
    Assoc([3], v, rest);
  }

  lemma CompactCanonical(b: Bytes)
    requires DecodeCompact(b).Parsed?
    ensures b == EncodeCompact(DecodeCompact(b).value) + DecodeCompact(b).rest
  {
    if b[0] % 4 == 0 {
      Front(b);
    } else if b[0] % 4 == 1 {
      CanonicalTwoBytes(b);
    } else if b[0] % 4 == 2 {
      CanonicalFourBytes(b);
    } else {
      CanonicalFiveBytes(b);
    }
  }
}
