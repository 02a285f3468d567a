/** Where each field of an activation frame stands, byte by byte. */
module ActivationLayout {
  import opened Seqs
  import opened Utf8
  import opened ActivationCodec

  /** The number that bytes stand for, the least significant one first. */
  function Number(bytes: seq<byte>): nat {
    if bytes == [] then 0 else bytes[0] as int + 256 * Number(bytes[1..])
  }

  lemma Number16(n: word)
    ensures Number(Le16(n)) == n
  {
    var bytes := Le16(n);
    assert bytes == [bytes[0]] + ([bytes[1]] + []);
    NumberCons(bytes[1], []);
    NumberCons(bytes[0], [bytes[1]] + []);
  }

  lemma NumberCons(b: byte, rest: seq<byte>)
    ensures Number([b] + rest) == b as int + 256 * Number(rest)
  {
    ConsParts(b, rest);
  }

  lemma Number32(n: nat)
    requires n < 0x1_0000_0000
    ensures Number(Le32(n)) == n
  {
    var low: word, high: word := n % 0x1_0000, n / 0x1_0000;
    var (a, b, c, d) := (low % 256, low / 256, high % 256, high / 256);
    assert Le32(n) == [a, b, c, d];
    FourBytes(a, b, c, d);
  }

  lemma FourBytes(a: byte, b: byte, c: byte, d: byte)
    ensures Number([a, b, c, d]) == a + 0x100 * b + 0x1_0000 * c + 0x100_0000 * d
  {
    var rest := [c] + ([d] + []);
    NumberCons(d, []);
    NumberCons(c, [d] + []);
    NumberCons(b, rest);
    NumberCons(a, [b] + rest);
    assert [a, b, c, d] == [a] + ([b] + rest);
  }

  /** The frame starts with "NTSI", the version, the kind, any byte and the length of the rest. */
  predicate Announces(frame: seq<byte>, kind: byte) {
    && |frame| >= 12 && frame[..4] == [0x4E, 0x54, 0x53, 0x49]
    && Number(frame[4..6]) == 1 && frame[6] == kind
    && Number(frame[8..12]) == |frame| - 12
  }

  /** The same with a zero before the length. */
  predicate HasHeader(frame: seq<byte>, kind: byte) {
    Announces(frame, kind) && frame[7] == 0
  }

  lemma ReadNumber(s: seq<byte>)
    ensures |s| == 2 ==> FromLe16(s) == Number(s)
    ensures |s| == 4 ==> FromLe32(s) == Number(s)
  {
    if |s| == 2 {
      Le16RoundTrip(0, s);
      Number16(FromLe16(s));
    }
    if |s| == 4 {
      Le32RoundTrip(0, s);
      Number32(FromLe32(s));
    }
  }

  /** Exactly the frames with such a start, of at most 256 KiB, are taken apart, and the rest is the payload. */
  lemma FrameDecodesIff(frame: seq<byte>, kind: byte)
    ensures DecodeFrame(frame, kind).Ok? <==> Announces(frame, kind) && |frame| <= 256 * 1024
    ensures DecodeFrame(frame, kind).Ok? ==> DecodeFrame(frame, kind).value == frame[12..]
  {
    if |frame| >= 12 {
      ReadNumber(frame[4..6]);
      ReadNumber(frame[8..12]);
    }
  }

  lemma HeaderLayout(kind: byte, payload: seq<byte>)
    requires EncodeFrame(kind, payload).Ok?
    ensures var frame := EncodeFrame(kind, payload).value;
            HasHeader(frame, kind) && |frame| == 12 + |payload| && frame[12..] == payload
  {
    var frame := EncodeFrame(kind, payload).value;
    Number32(|payload|);
    Number16(VERSION);
    assert frame[..4] == MAGIC && frame[4..6] == Le16(VERSION) && frame[8..12] == Le32(|payload|);
  }

  /** The bytes at `at` are a tag, the length in bytes and the content; wide units are two bytes each. */
  predicate HasArg(bytes: seq<byte>, at: nat, arg: Arg) {
    && at + 5 + EncodedLength(arg) <= |bytes|
    && Number(bytes[at + 1..at + 5]) == EncodedLength(arg)
    && match arg
       case Bytes(content) => bytes[at] == 0 && bytes[at + 5..at + 5 + |content|] == content
       case Wide(units) =>
         bytes[at] == 1 && forall k | 0 <= k < |units| :: Number(bytes[at + 5 + 2 * k..at + 7 + 2 * k]) == units[k]
  }

  /** Where argument `i` starts among the arguments. */
  function ArgStart(args: seq<Arg>, i: nat): nat
    requires i <= |args|
  {
    if i == 0 then 0 else ArgStart(args, i - 1) + 5 + EncodedLength(args[i - 1])
  }

  lemma {:induction false} UnitAt(units: seq<word>, k: nat)
    requires k < |units|
    ensures |UnitBytes(units)| == 2 * |units| && Number(UnitBytes(units)[2 * k..2 * k + 2]) == units[k]
    decreases k
  {
    UnitsRoundTrip(units);
    var rest := UnitBytes(units[1..]);
    UnitsRoundTrip(units[1..]);
    if k == 0 {
      assert UnitBytes(units)[0..2] == Le16(units[0]);
      Number16(units[0]);
    } else {
      UnitAt(units[1..], k - 1);
      assert UnitBytes(units)[2 * k..2 * k + 2] == rest[2 * (k - 1)..2 * (k - 1) + 2];
    }
  }

  lemma ArgLayout(arg: Arg)
    requires EncodedLength(arg) <= MAX_ARG_BYTES
    ensures |EncodeArg(arg)| == 5 + EncodedLength(arg) && HasArg(EncodeArg(arg), 0, arg)
  {
    var bytes := EncodeArg(arg);
    Number32(EncodedLength(arg));
    match arg
    case Bytes(content) =>
      assert bytes[1..5] == Le32(|content|) && bytes[5..5 + |content|] == content;
    case Wide(units) =>
      UnitsRoundTrip(units);
      assert bytes[1..5] == Le32(2 * |units|) && bytes[5..] == UnitBytes(units);
      forall k | 0 <= k < |units| ensures Number(bytes[5 + 2 * k..7 + 2 * k]) == units[k] {
        UnitAt(units, k);
        assert bytes[5 + 2 * k..7 + 2 * k] == UnitBytes(units)[2 * k..2 * k + 2];
      }
  }

  /** What stands at an offset of a part stands further on in the whole. */
  lemma ArgMoves(before: seq<byte>, bytes: seq<byte>, after: seq<byte>, at: nat, arg: Arg)
    requires HasArg(bytes, at, arg)
    ensures HasArg(before + bytes + after, |before| + at, arg)
  {
    var all, n := before + bytes + after, |before|;
    SliceMoves(before, bytes, after, at + 1, at + 5);
    SliceMoves(before, bytes, after, at + 5, at + 5 + EncodedLength(arg));
    assert all[n + at] == bytes[at];
    if arg.Wide? {
      forall k | 0 <= k < |arg.units| ensures Number(all[n + at + 5 + 2 * k..n + at + 7 + 2 * k]) == arg.units[k] {
        SliceMoves(before, bytes, after, at + 5 + 2 * k, at + 7 + 2 * k);
      }
    }
  }

  lemma ArgStays(bytes: seq<byte>, after: seq<byte>, at: nat, arg: Arg)
    requires HasArg(bytes, at, arg)
    ensures HasArg(bytes + after, at, arg)
  {
    ArgMoves([], bytes, after, at, arg);
    WithEmpty(bytes);
  }

  lemma ArgAfter(before: seq<byte>, bytes: seq<byte>, at: nat, arg: Arg)
    requires HasArg(bytes, at, arg)
    ensures HasArg(before + bytes, |before| + at, arg)
  {
    ArgMoves(before, bytes, [], at, arg);
    WithEmpty(before + bytes);
  }

  lemma SliceMoves<T>(before: seq<T>, s: seq<T>, after: seq<T>, i: nat, j: nat)
    requires i <= j <= |s|
    ensures (before + s + after)[|before| + i..|before| + j] == s[i..j]
  {
  }

  /** Argument `i` stands where it should in the arguments from `at` on. */
  predicate InPlace(bytes: seq<byte>, at: nat, args: seq<Arg>, i: nat)
    requires i < |args|
  {
    HasArg(bytes, at + ArgStart(args, i), args[i])
  }

  /** The bytes hold the first `n` arguments, one right after the other, from `at` on. */
  ghost predicate HasArgs(bytes: seq<byte>, at: nat, args: seq<Arg>, n: nat)
    requires n <= |args|
  {
    |bytes| == at + ArgStart(args, n) && forall i {:trigger InPlace(bytes, at, args, i)} | 0 <= i < n :: InPlace(bytes, at, args, i)
  }

  lemma OneMoreArg(bytes: seq<byte>, last: seq<byte>, args: seq<Arg>, n: nat)
    requires n < |args| && HasArgs(bytes, 0, args, n) && |last| == 5 + EncodedLength(args[n]) && HasArg(last, 0, args[n])
    ensures HasArgs(bytes + last, 0, args, n + 1)
  {
    ArgAfter(bytes, last, 0, args[n]);
    forall i {:trigger InPlace(bytes + last, 0, args, i)} | 0 <= i < n ensures InPlace(bytes + last, 0, args, i) {
      assert InPlace(bytes, 0, args, i);
      ArgStays(bytes, last, ArgStart(args, i), args[i]);
    }
  }

  lemma {:induction false} ArgsLayout(args: seq<Arg>, n: nat)
    requires ArgsFit(args) && n <= |args|
    ensures HasArgs(EncodeArgs(args[..n]), 0, args, n)
  {
    if n > 0 {
      ArgsLayout(args, n - 1);
      ArgLayout(args[n - 1]);
      EncodeArgsAppend(args[..n - 1], args[n - 1]);
      TakeSnoc(args, n - 1);
      OneMoreArg(EncodeArgs(args[..n - 1]), EncodeArg(args[n - 1]), args, n - 1);
    }
  }

  lemma ArgsMove(head: seq<byte>, bytes: seq<byte>, args: seq<Arg>)
    requires HasArgs(bytes, 0, args, |args|)
    ensures HasArgs(head + bytes, |head|, args, |args|)
  {
    forall i {:trigger InPlace(head + bytes, |head|, args, i)} | 0 <= i < |args| ensures InPlace(head + bytes, |head|, args, i) {
      assert InPlace(bytes, 0, args, i);
      ArgAfter(head, bytes, ArgStart(args, i), args[i]);
    }
  }

  /** Every byte of a request: the header, the token, the id, the number of arguments, and then each
      argument right after the one before. */
  lemma RequestLayout(token: Id, request: Request)
    requires EncodeRequest(token, request).Ok?
    ensures var (frame, args) := (EncodeRequest(token, request).value, request.args);
            && HasHeader(frame, 1) && |frame| >= 46
            && frame[12..28] == token && frame[28..44] == request.id && Number(frame[44..46]) == |args|
            && HasArgs(frame, 46, args, |args|)
  {
    var frame, args, payload := EncodeRequest(token, request).value, request.args, RequestPayload(token, request);
    HeaderLayout(REQUEST_KIND, payload);
    Number16(|args|);
    ArgsLayout(args, |args|);
    assert args[..|args|] == args;
    PayloadLayout(token, request.id, Le16(|args|), EncodeArgs(args));
    PayloadInFrame(frame, payload);
    ArgsMove(frame[..46], EncodeArgs(args), args);
    Rejoin(frame, 46);
  }

  lemma PayloadInFrame(frame: seq<byte>, payload: seq<byte>)
    requires |frame| == 12 + |payload| && |payload| >= 34 && frame[12..] == payload
    ensures frame[12..28] == payload[..16] && frame[28..44] == payload[16..32] && frame[44..46] == payload[32..34]
    ensures frame[46..] == payload[34..]
  {
  }

  /** Every byte of an ACK: the header, the id and the status. */
  lemma AckLayout(ack: Ack)
    ensures EncodeAck(ack).Ok?
    ensures var frame := EncodeAck(ack).value;
            && HasHeader(frame, 2) && |frame| == 29 && frame[12..28] == ack.id
            && frame[28] == match ack.status case Accepted => 0 case QueueFull => 1 case ShuttingDown => 2 case InvalidRequest => 3
  {
    HeaderLayout(ACK_KIND, ack.id + [StatusByte(ack.status)]);
  }
}
