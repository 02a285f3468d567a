/** Percent encoding of URI components and paths, and the decoder for listed path segments. */
module PercentCodec {
  import opened Options
  import opened Seqs
  import opened Utf8

  const PERCENT: byte := 0x25
  const SLASH: byte := 0x2F
  const PLUS: byte := 0x2B

  /** Unreserved characters of section 2.3 of RFC 3986. */
  predicate IsUnreserved(b: byte) {
    || 0x41 <= b <= 0x5A || 0x61 <= b <= 0x7A || 0x30 <= b <= 0x39
    || b == 0x2D || b == 0x5F || b == 0x2E || b == 0x7E
  }

  lemma UnreservedIff(b: byte)
    ensures IsUnreserved(b) <==>
              b as char in {'A', 'B', 'C', 'D', 'E', 'F', 'G', 'H', 'I', 'J', 'K', 'L', 'M',
                            'N', 'O', 'P', 'Q', 'R', 'S', 'T', 'U', 'V', 'W', 'X', 'Y', 'Z',
                            'a', 'b', 'c', 'd', 'e', 'f', 'g', 'h', 'i', 'j', 'k', 'l', 'm',
                            'n', 'o', 'p', 'q', 'r', 's', 't', 'u', 'v', 'w', 'x', 'y', 'z',
                            '0', '1', '2', '3', '4', '5', '6', '7', '8', '9',
                            '-', '.', '_', '~'}
  {
  }

  function UpperHex(n: nat): byte
    requires n < 16
  {
    if n < 10 then 0x30 + n else 0x37 + n
  }

  function EncodeByte(b: byte): seq<byte> {
    if IsUnreserved(b) then [b] else [PERCENT, UpperHex(b / 16), UpperHex(b % 16)]
  }

  function Encode(s: seq<byte>): seq<byte> {
    if s == [] then [] else EncodeByte(s[0]) + Encode(s[1..])
  }

  lemma {:induction false} EncodeConcat(a: seq<byte>, b: seq<byte>)
    ensures Encode(a + b) == Encode(a) + Encode(b)
  {
    if a == [] {
      WithEmpty(b);
    } else {
      TailOfConcat(a, b);
      EncodeConcat(a[1..], b);
      Assoc(EncodeByte(a[0]), Encode(a[1..]), Encode(b));
    }
  }

  method EncodeComponent(value: Text) returns (output: seq<byte>)
    ensures output == Encode(value)
  {
    output := [];
    for i := 0 to |value|
      invariant output == Encode(value[..i])
    {
      EncodeConcat(value[..i], [value[i]]);
      assert value[..i + 1] == value[..i] + [value[i]];
      assert [value[i]][1..] == [];
      output := output + EncodeByte(value[i]);
    }
    assert value[..|value|] == value;
  }

  // ----- decoder

  function HexValue(b: byte): Option<nat> {
    if 0x30 <= b <= 0x39 then Some(b - 0x30)
    else if 0x41 <= b <= 0x46 then Some(b - 0x37)
    else if 0x61 <= b <= 0x66 then Some(b - 0x57)
    else None
  }

  lemma HexValueIff(b: byte, n: nat)
    ensures HexValue(b) == Some(n) <==> n < 16 && (b as char == "0123456789abcdef"[n] || b as char == "0123456789ABCDEF"[n])
  {
  }

  /** A two-character number in base 16. A leading plus sign is accepted. */
  function ByteFromHex(high: byte, low: byte): (r: Option<byte>) {
    var (h, l) := (HexValue(high), HexValue(low));
    if l.None? then None
    else if high == PLUS then Some(l.value)
    else if h.None? then None
    else Some(16 * h.value + l.value)
  }

  function DecodeBytes(s: seq<byte>): Option<seq<byte>> {
    if s == [] then Some([])
    else if s[0] != PERCENT then
      var rest := DecodeBytes(s[1..]);
      if rest.None? then None else Some([s[0]] + rest.value)
    else if |s| < 3 || ByteFromHex(s[1], s[2]).None? then None
    else
      var rest := DecodeBytes(s[3..]);
      if rest.None? then None else Some([ByteFromHex(s[1], s[2]).value] + rest.value)
  }

  /** The decoded bytes must be UTF-8. */
  function Decode(s: seq<byte>): Option<Text> {
    var bytes := DecodeBytes(s);
    if bytes.Some? && Valid(bytes.value) then Some(bytes.value) else None
  }

  ghost function Prepend(decoded: seq<byte>, r: Option<seq<byte>>): Option<seq<byte>> {
    if r.None? then None else Some(decoded + r.value)
  }

  lemma PrependStep(decoded: seq<byte>, b: byte, r: Option<seq<byte>>)
    ensures Prepend([], r) == r
    ensures Prepend(decoded + [b], r) == Prepend(decoded, if r.None? then None else Some([b] + r.value))
  {
    if r.Some? {
      assert [] + r.value == r.value;
      assert decoded + [b] + r.value == decoded + ([b] + r.value);
    }
  }

  method DecodePathSegment(value: seq<byte>) returns (r: Option<Text>)
    ensures r == Decode(value)
  {
    var decoded: seq<byte>, index := [], 0;
    PrependStep([], 0, DecodeBytes(value));
    assert value[0..] == value;
    while index < |value|
      invariant 0 <= index <= |value|
      invariant DecodeBytes(value) == Prepend(decoded, DecodeBytes(value[index..]))
    {
      if value[index] == PERCENT {
        if index + 3 > |value| {
          return None;
        }
        var b := ByteFromHex(value[index + 1], value[index + 2]);
        if b.None? {
          return None;
        }
        assert value[index..][3..] == value[index + 3..];
        PrependStep(decoded, b.value, DecodeBytes(value[index + 3..]));
        decoded := decoded + [b.value];
        index := index + 3;
      } else {
        assert value[index..][1..] == value[index + 1..];
        PrependStep(decoded, value[index], DecodeBytes(value[index + 1..]));
        decoded := decoded + [value[index]];
        index := index + 1;
      }
    }
    assert decoded + [] == decoded;
    if Valid(decoded) {
      return Some(decoded);
    }
    return None;
  }

  // ----- the two undo each other

  lemma HexRoundTrip(b: byte)
    ensures ByteFromHex(UpperHex(b / 16), UpperHex(b % 16)) == Some(b)
  {
  }

  lemma {:induction false} DecodeUndoesEncode(s: seq<byte>)
    ensures DecodeBytes(Encode(s)) == Some(s)
  {
    if s != [] {
      var rest := Encode(s[1..]);
      DecodeUndoesEncode(s[1..]);
      assert s == [s[0]] + s[1..];
      if IsUnreserved(s[0]) {
        assert ([s[0]] + rest)[1..] == rest;
      } else {
        HexRoundTrip(s[0]);
        assert (EncodeByte(s[0]) + rest)[3..] == rest;
      }
    }
  }

  /** Every UTF-8 string survives encoding and decoding. */
  lemma ComponentRoundTrip(s: Text)
    ensures Decode(Encode(s)) == Some(s)
  {
    DecodeUndoesEncode(s);
  }

  /** The encoder's own spelling: unreserved bytes as they are, all others with two upper-case digits. */
  predicate IsEncoding(s: seq<byte>) {
    s == [] ||
    (if IsUnreserved(s[0]) then IsEncoding(s[1..])
     else |s| >= 3 && s[0] == PERCENT && ByteFromHex(s[1], s[2]).Some? && !IsUnreserved(ByteFromHex(s[1], s[2]).value)
          && s[1] == UpperHex(ByteFromHex(s[1], s[2]).value / 16) && s[2] == UpperHex(ByteFromHex(s[1], s[2]).value % 16)
          && IsEncoding(s[3..]))
  }

  /** Decoding then encoding gives a text back exactly when it is in the encoder's own spelling. */
  lemma {:induction false} EncodeUndoesDecodeBytes(s: seq<byte>)
    ensures DecodeBytes(s).Some? && Encode(DecodeBytes(s).value) == s <==> IsEncoding(s)
  {
    if s != [] {
      if s[0] != PERCENT {
        EncodeUndoesDecodeBytes(s[1..]);
        if DecodeBytes(s).Some? {
          var rest := DecodeBytes(s[1..]).value;
          assert ([s[0]] + rest)[1..] == rest;
          assert s == [s[0]] + s[1..];
          EncodedHead(s[0], rest, s);
        }
      } else if |s| >= 3 && ByteFromHex(s[1], s[2]).Some? {
        EncodeUndoesDecodeBytes(s[3..]);
        if DecodeBytes(s).Some? {
          var b, rest := ByteFromHex(s[1], s[2]).value, DecodeBytes(s[3..]).value;
          assert ([b] + rest)[1..] == rest;
          EncodedHead(b, rest, s);
        }
      }
    }
  }

  /** The same for the decoder as a whole, which also refuses bytes that are not UTF-8. */
  lemma EncodeUndoesDecode(s: seq<byte>)
    ensures Decode(s).Some? && Encode(Decode(s).value) == s <==>
              IsEncoding(s) && DecodeBytes(s).Some? && Valid(DecodeBytes(s).value)
  {
    EncodeUndoesDecodeBytes(s);
  }

  /** An encoded text starts with its first byte's encoding. */
  lemma EncodedHead(b: byte, rest: seq<byte>, s: seq<byte>)
    ensures EncodeByte(b) + Encode(rest) == s <==> EncodeByte(b) <= s && Encode(rest) == s[|EncodeByte(b)|..]
  {
    if EncodeByte(b) <= s {
      assert s == EncodeByte(b) + s[|EncodeByte(b)|..];
    }
    var joined := EncodeByte(b) + Encode(rest);
    assert joined[|EncodeByte(b)|..] == Encode(rest);
  }

  /** The decoder is not strict: a plus sign passes for a leading digit. */
  lemma PlusIsAccepted(low: byte)
    requires HexValue(low).Some?
    ensures Decode([PERCENT, PLUS, low]) == Some([HexValue(low).value]) && !IsEncoding([PERCENT, PLUS, low])
  {
    var s := [PERCENT, PLUS, low];
    assert s[3..] == [] && DecodeBytes(s[3..]) == Some([]);
    assert ByteFromHex(PLUS, low) == Some(HexValue(low).value);
    assert [HexValue(low).value] + [] == [HexValue(low).value];
    var b := HexValue(low).value;
    assert [b][1..] == [] && b < 16;
    assert DecodeBytes(s) == Some([b]) && Valid([b]);
  }

  // ----- paths

  function Split(s: seq<byte>): (r: seq<seq<byte>>)
    ensures r != []
  {
    if s == [] then [[]]
    else
      var rest := Split(s[1..]);
      if s[0] == SLASH then [[]] + rest else [[s[0]] + rest[0]] + rest[1..]
  }

  function Join(segments: seq<seq<byte>>): seq<byte>
    requires segments != []
  {
    if |segments| == 1 then segments[0] else segments[0] + [SLASH] + Join(segments[1..])
  }

  function EncodeAll(segments: seq<seq<byte>>): (r: seq<seq<byte>>)
    ensures |r| == |segments|
  {
    if segments == [] then [] else [Encode(segments[0])] + EncodeAll(segments[1..])
  }

  function EncodePath(path: seq<byte>): seq<byte> {
    Join(EncodeAll(Split(path)))
  }

  predicate NoSlash(s: seq<byte>) {
    forall i | 0 <= i < |s| :: s[i] != SLASH
  }

  lemma {:induction false} EncodeHasNoSlash(s: seq<byte>)
    ensures NoSlash(Encode(s))
  {
    if s != [] {
      EncodeHasNoSlash(s[1..]);
    }
  }

  lemma {:induction false} SplitPlain(s: seq<byte>)
    requires NoSlash(s)
    ensures Split(s) == [s]
  {
    if s != [] {
      SplitPlain(s[1..]);
      assert s == [s[0]] + s[1..];
    }
  }

  lemma {:induction false} SplitAtSlash(a: seq<byte>, b: seq<byte>)
    requires NoSlash(a)
    ensures Split(a + [SLASH] + b) == [a] + Split(b)
  {
    var s := a + [SLASH] + b;
    if a == [] {
      assert s[1..] == b;
    } else {
      SplitAtSlash(a[1..], b);
      assert s[1..] == a[1..] + [SLASH] + b;
      assert ([a[1..]] + Split(b))[1..] == Split(b);
      assert a == [a[0]] + a[1..];
    }
  }

  lemma {:induction false} SplitJoin(segments: seq<seq<byte>>)
    requires segments != [] && forall i | 0 <= i < |segments| :: NoSlash(segments[i])
    ensures Split(Join(segments)) == segments
    decreases |segments|
  {
    if |segments| == 1 {
      SplitPlain(segments[0]);
    } else {
      SplitJoin(segments[1..]);
      SplitAtSlash(segments[0], Join(segments[1..]));
    }
  }

  lemma {:induction false} EncodeAllAt(segments: seq<seq<byte>>, i: nat)
    requires i < |segments|
    ensures EncodeAll(segments)[i] == Encode(segments[i]) && NoSlash(EncodeAll(segments)[i])
  {
    if i == 0 {
      EncodeHasNoSlash(segments[0]);
    } else {
      EncodeAllAt(segments[1..], i - 1);
    }
  }

  /** Where the first slash is, or the length. */
  function FirstSlash(s: seq<byte>): (i: nat)
    ensures i <= |s| && NoSlash(s[..i]) && (i < |s| ==> s[i] == SLASH)
  {
    if s == [] || s[0] == SLASH then 0
    else
      var i := FirstSlash(s[1..]);
      assert s[..i + 1] == [s[0]] + s[1..][..i];
      i + 1
  }

  /** A slash is a whole character, so cutting a text there leaves texts. */
  lemma CutAtSlash(s: Text, i: nat)
    requires i < |s| && s[i] == SLASH
    ensures Valid(s[..i]) && Valid(s[i + 1..]) && s == s[..i] + [SLASH] + s[i + 1..]
  {
    ValidCut(s, i);
    assert s[i..][1..] == s[i + 1..];
  }

  lemma {:induction false} SegmentsValid(s: Text)
    ensures forall i | 0 <= i < |Split(s)| :: Valid(Split(s)[i])
    decreases |s|
  {
    var i := FirstSlash(s);
    if i == |s| {
      assert s[..i] == s;
      SplitPlain(s);
    } else {
      CutAtSlash(s, i);
      SplitAtSlash(s[..i], s[i + 1..]);
      SegmentsValid(s[i + 1..]);
    }
  }

  /** Encoding a path keeps its segments: the encoded path splits into the encoded segments, and each
      one decodes to the segment it came from. */
  lemma PathKeepsSegments(path: Text)
    ensures |Split(EncodePath(path))| == |Split(path)|
    ensures forall i | 0 <= i < |Split(path)| ::
              Split(EncodePath(path))[i] == Encode(Split(path)[i]) && Decode(Split(EncodePath(path))[i]) == Some(Split(path)[i])
  {
    var segments := Split(path);
    forall i | 0 <= i < |segments| ensures EncodeAll(segments)[i] == Encode(segments[i]) && NoSlash(EncodeAll(segments)[i]) {
      EncodeAllAt(segments, i);
    }
    SplitJoin(EncodeAll(segments));
    SegmentsValid(path);
    forall i | 0 <= i < |segments| ensures Decode(Encode(segments[i])) == Some(segments[i]) {
      ComponentRoundTrip(segments[i]);
    }
  }
}
