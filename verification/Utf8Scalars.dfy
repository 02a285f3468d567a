/** Well-formed UTF-8 is exactly the encoding of sequences of Unicode scalar values. */
module Utf8Scalars {
  import opened Seqs
  import opened Utf8

  /** A code point that is no surrogate (definition D76 of the Unicode Standard). */
  type scalar = c: int | 0 <= c < 0xD800 || 0xE000 <= c < 0x11_0000

  /** The bits of a scalar value, six to each byte after the first (Table 3-6 of the Unicode Standard). */
  function EncodeOne(c: scalar): seq<byte> {
    if c < 0x80 then [c]
    else if c < 0x800 then [0xC0 + c / 0x40, 0x80 + c % 0x40]
    else if c < 0x1_0000 then [0xE0 + c / 0x1000, 0x80 + c / 0x40 % 0x40, 0x80 + c % 0x40]
    else [0xF0 + c / 0x4_0000, 0x80 + c / 0x1000 % 0x40, 0x80 + c / 0x40 % 0x40, 0x80 + c % 0x40]
  }

  function EncodeAll(cs: seq<scalar>): seq<byte> {
    if cs == [] then [] else EncodeOne(cs[0]) + EncodeAll(cs[1..])
  }

  lemma OneIsChar(c: scalar, rest: seq<byte>)
    ensures CharLength(EncodeOne(c) + rest) == |EncodeOne(c)|
  {
    var s := EncodeOne(c) + rest;
    assert forall i | 0 <= i < |EncodeOne(c)| :: s[i] == EncodeOne(c)[i];
  }

  /** The six-bit digits of a number. */
  lemma Digits(h: nat, x: nat, y: nat, z: nat)
    requires x < 0x40 && y < 0x40 && z < 0x40
    ensures var c := h * 0x4_0000 + x * 0x1000 + y * 0x40 + z;
            c / 0x4_0000 == h && c / 0x1000 % 0x40 == x && c / 0x40 % 0x40 == y && c % 0x40 == z && c / 0x1000 == h * 0x40 + x
            && c / 0x40 == h * 0x1000 + x * 0x40 + y
  {
    By40(h * 0x1000 + x * 0x40 + y, z);
    By40(h * 0x40 + x, y);
    By40(h, x);
    By1000(h * 0x40 + x, y * 0x40 + z);
    By40000(h, x * 0x1000 + y * 0x40 + z);
  }

  lemma By40(q: nat, r: nat)
    requires r < 0x40
    ensures (q * 0x40 + r) / 0x40 == q && (q * 0x40 + r) % 0x40 == r
  {
  }

  lemma By1000(q: nat, r: nat)
    requires r < 0x1000
    ensures (q * 0x1000 + r) / 0x1000 == q
  {
  }

  lemma By40000(q: nat, r: nat)
    requires r < 0x4_0000
    ensures (q * 0x4_0000 + r) / 0x4_0000 == q
  {
  }

  lemma TwoBytes(s: seq<byte>) returns (c: scalar)
    requires CharLength(s) == 2
    ensures [s[0], s[1]] == EncodeOne(c)
  {
    var a: nat, b: nat := s[0] - 0xC0, s[1] - 0x80;
    Digits(0, 0, a, b);
    c := a * 0x40 + b;
  }

  lemma ThreeBytes(s: seq<byte>) returns (c: scalar)
    requires CharLength(s) == 3
    ensures [s[0], s[1], s[2]] == EncodeOne(c)
  {
    var a: nat, b: nat, d: nat := s[0] - 0xE0, s[1] - 0x80, s[2] - 0x80;
    Digits(0, a, b, d);
    c := a * 0x1000 + b * 0x40 + d;
  }

  lemma FourBytes(s: seq<byte>) returns (c: scalar)
    requires CharLength(s) == 4
    ensures [s[0], s[1], s[2], s[3]] == EncodeOne(c)
  {
    var a: nat, b: nat, d: nat, e: nat := s[0] - 0xF0, s[1] - 0x80, s[2] - 0x80, s[3] - 0x80;
    Digits(a, b, d, e);
    c := a * 0x4_0000 + b * 0x1000 + d * 0x40 + e;
  }

  /** The scalar value of a well-formed character. */
  lemma CharIsOne(s: seq<byte>) returns (c: scalar)
    requires CharLength(s) > 0
    ensures s[..CharLength(s)] == EncodeOne(c)
  {
    match CharLength(s)
    case 1 => c := s[0];
    case 2 => c := TwoBytes(s);
    case 3 => c := ThreeBytes(s);
    case _ => c := FourBytes(s);
  }

  lemma {:induction false} EncodedIsValid(cs: seq<scalar>)
    ensures Valid(EncodeAll(cs))
  {
    if cs != [] {
      EncodedIsValid(cs[1..]);
      OneIsChar(cs[0], EncodeAll(cs[1..]));
      JoinedParts(EncodeOne(cs[0]), EncodeAll(cs[1..]));
    }
  }

  lemma {:induction false} ValidIsEncoded(s: seq<byte>) returns (cs: seq<scalar>)
    requires Valid(s)
    ensures EncodeAll(cs) == s
    decreases |s|
  {
    cs := [];
    if s != [] {
      var n := CharLength(s);
      var c := CharIsOne(s);
      var more := ValidIsEncoded(s[n..]);
      cs := [c] + more;
      ConsParts(c, more);
      Rejoin(s, n);
    }
  }

  /** A byte sequence is well-formed if and only if it encodes some scalar values. */
  lemma ValidIff(s: seq<byte>)
    ensures Valid(s) <==> exists cs :: EncodeAll(cs) == s
  {
    if Valid(s) {
      var cs := ValidIsEncoded(s);
    }
    if cs :| EncodeAll(cs) == s {
      EncodedIsValid(cs);
    }
  }
}
