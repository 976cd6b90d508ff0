/** Which bytes are text: the UTF-8 strings of Types are exactly the encodings of sequences of Unicode scalar
    values (section 3 of RFC 3629). */
module Text {
  import opened Types

  predicate IsScalar(x: int) { 0 <= x <= 0xD7FF || 0xE000 <= x <= 0x10FFFF }

  function Tail(x: nat): Byte { 0x80 + x % 0x40 }

  /** One to four bytes, as few as the value fits in. */
  function EncodeScalar(x: int): (b: Bytes)
    requires IsScalar(x)
  {
    if x < 0x80 then [x]
    else if x < 0x800 then [0xC0 + x / 0x40, Tail(x)]
    else if x < 0x1_0000 then [0xE0 + x / 0x1000, Tail(x / 0x40), Tail(x)]
    else [0xF0 + x / 0x4_0000, Tail(x / 0x1000), Tail(x / 0x40), Tail(x)]
  }

  predicate AllScalar(xs: seq<int>) { forall i :: 0 <= i < |xs| ==> IsScalar(xs[i]) }

  function EncodeText(xs: seq<int>): Bytes
    requires AllScalar(xs)
  {
    if xs == [] then [] else EncodeScalar(xs[0]) + EncodeText(xs[1..])
  }

  /** How far byte `i` is above `base`. */
  function Over(b: Bytes, i: nat, base: int): int
    requires i < |b|
  {
    b[i] - base
  }

  /** The scalar value that the first `Utf8Lead` bytes stand for. */
  function DecodeScalar(b: Bytes): int
    requires Utf8Lead(b) > 0
  {
    match Utf8Lead(b)
    case 1 => b[0]
    case 2 => Over(b, 0, 0xC0) * 0x40 + Over(b, 1, 0x80)
    case 3 => Over(b, 0, 0xE0) * 0x1000 + Over(b, 1, 0x80) * 0x40 + Over(b, 2, 0x80)
    case _ => Over(b, 0, 0xF0) * 0x4_0000 + Over(b, 1, 0x80) * 0x1000 + Over(b, 2, 0x80) * 0x40 + Over(b, 3, 0x80)
  }

  lemma Digits(x: nat, a: nat, d: nat)
    requires x == a * 0x40 + d && d < 0x40
    ensures x / 0x40 == a && x % 0x40 == d
  {}

  lemma ShiftTwice(x: nat)
    ensures x / 0x1000 == x / 0x40 / 0x40 && x / 0x4_0000 == x / 0x40 / 0x40 / 0x40
  {}

  lemma LeadFour(x: int, rest: Bytes)
    requires 0x1_0000 <= x && IsScalar(x)
    ensures Utf8Lead(EncodeScalar(x) + rest) == 4
  {
    ShiftTwice(x);
  }

  /** The encoding of a scalar value is recognised as what it is, whatever follows. */
  lemma LeadOfScalar(x: int, rest: Bytes)
    requires IsScalar(x)
    ensures Utf8Lead(EncodeScalar(x) + rest) == |EncodeScalar(x)|
    ensures (EncodeScalar(x) + rest)[|EncodeScalar(x)|..] == rest
  {
    if 0x80 <= x < 0x800 {
    } else if 0x800 <= x < 0x1_0000 {
    } else if 0x1_0000 <= x {
      LeadFour(x, rest);
    }
  }

  lemma ScalarOfThree(b: Bytes)
    requires Utf8Lead(b) == 3
    ensures IsScalar(DecodeScalar(b)) && b[..3] == EncodeScalar(DecodeScalar(b))
  {
    var x := DecodeScalar(b);
    Digits(x, Over(b, 0, 0xE0) * 0x40 + Over(b, 1, 0x80), Over(b, 2, 0x80));
    Digits(x / 0x40, Over(b, 0, 0xE0), Over(b, 1, 0x80));
    ShiftTwice(x);
  }

  lemma ScalarOfFour(b: Bytes)
    requires Utf8Lead(b) == 4
    ensures IsScalar(DecodeScalar(b)) && b[..4] == EncodeScalar(DecodeScalar(b))
  {
    var x := DecodeScalar(b);
    Digits(x, Over(b, 0, 0xF0) * 0x1000 + Over(b, 1, 0x80) * 0x40 + Over(b, 2, 0x80), Over(b, 3, 0x80));
    Digits(x / 0x40, Over(b, 0, 0xF0) * 0x40 + Over(b, 1, 0x80), Over(b, 2, 0x80));
    Digits(x / 0x40 / 0x40, Over(b, 0, 0xF0), Over(b, 1, 0x80));
    ShiftTwice(x);
  }

  /** What starts like UTF-8 starts with the encoding of a scalar value. */
  lemma ScalarOfLead(b: Bytes)
    requires Utf8Lead(b) > 0
    ensures IsScalar(DecodeScalar(b)) && b[..Utf8Lead(b)] == EncodeScalar(DecodeScalar(b))
  {
    if Utf8Lead(b) == 2 {
    } else if Utf8Lead(b) == 3 {
      ScalarOfThree(b);
    } else if Utf8Lead(b) == 4 {
      ScalarOfFour(b);
    }
  }

  lemma {:induction false} TextIsValid(xs: seq<int>)
    requires AllScalar(xs)
    ensures ValidUtf8(EncodeText(xs))
  {
    if xs != [] {
      TextIsValid(xs[1..]);
      LeadOfScalar(xs[0], EncodeText(xs[1..]));
    }
  }

  lemma OneMoreScalar(b: Bytes, n: nat, x: int, more: seq<int>, xs: seq<int>)
    requires n <= |b| && IsScalar(x) && b[..n] == EncodeScalar(x)
    requires AllScalar(more) && EncodeText(more) == b[n..] && xs == [x] + more
    ensures AllScalar(xs) && EncodeText(xs) == b
  {
    assert xs[1..] == more;
    assert b == b[..n] + b[n..];
  }

  lemma {:induction false} ValidIsText(b: Bytes) returns (xs: seq<int>)
    requires ValidUtf8(b)
    ensures AllScalar(xs) && EncodeText(xs) == b
    decreases |b|
  {
    if b == [] {
      xs := [];
    } else {
      var n := Utf8Lead(b);
      var more := ValidIsText(b[n..]);
      ScalarOfLead(b);
      xs := [DecodeScalar(b)] + more;
      OneMoreScalar(b, n, DecodeScalar(b), more, xs);
    }
  }

  /** A byte string is accepted as text if and only if it is the encoding of some sequence of scalar values. */
  lemma Utf8Exactly(b: Bytes)
    ensures ValidUtf8(b) <==> exists xs :: AllScalar(xs) && EncodeText(xs) == b
  {
    if ValidUtf8(b) { var xs := ValidIsText(b); }
    if xs :| AllScalar(xs) && EncodeText(xs) == b { TextIsValid(xs); }
  }
}
