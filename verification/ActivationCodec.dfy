/** Wire format of single-instance activation: a 12-byte header and a request or ACK payload. */
module ActivationCodec {
  import opened Seqs
  import opened Utf8

  type word = x: int | 0 <= x < 0x1_0000

  type Id = s: seq<byte> | |s| == 16 witness [0, 0, 0, 0, 0, 0, 0, 0, 0, 0, 0, 0, 0, 0, 0, 0]

  datatype Arg = Bytes(bytes: seq<byte>) | Wide(units: seq<word>)

  datatype Request = Request(id: Id, args: seq<Arg>)

  datatype AckStatus = Accepted | QueueFull | ShuttingDown | InvalidRequest

  datatype Ack = Ack(id: Id, status: AckStatus)

  datatype Error =
    | Truncated
    | InvalidMagic
    | UnsupportedVersion(version: word)
    | UnexpectedKind(kind: byte)
    | FrameTooLarge
    | TooManyArguments
    | ArgumentTooLarge
    | InvalidArgumentEncoding(tag: byte)
    | InvalidWideArgument
    | TrailingData
    | InvalidAckStatus(status: byte)

  datatype Result<+T> = Ok(value: T) | Err(error: Error) {
    predicate IsFailure() { Err? }
    function PropagateFailure<U>(): Result<U> requires Err? { Err(error) }
    function Extract(): T requires Ok? { value }
  }

  const MAGIC: seq<byte> := [0x4E, 0x54, 0x53, 0x49]
  const VERSION: word := 1
  const MAX_FRAME := 256 * 1024
  const MAX_ARGS := 256
  const MAX_ARG_BYTES := 32 * 1024
  const HEADER := 12
  const REQUEST_KIND: byte := 1
  const ACK_KIND: byte := 2

  // ----- little-endian numbers

  function Le16(n: word): seq<byte> {
    [n % 256, n / 256]
  }

  function FromLe16(s: seq<byte>): word
    requires |s| == 2
  {
    var (low: int, high: int) := (s[0], s[1]);
    low + 256 * high
  }

  function Le32(n: nat): seq<byte>
    requires n < 0x1_0000_0000
  {
    Le16(n % 0x1_0000) + Le16(n / 0x1_0000)
  }

  function FromLe32(s: seq<byte>): (n: nat)
    requires |s| == 4
    ensures n < 0x1_0000_0000
  {
    FromLe16(s[..2]) + 0x1_0000 * FromLe16(s[2..])
  }

  lemma Le16RoundTrip(n: word, s: seq<byte>)
    ensures FromLe16(Le16(n)) == n
    ensures |s| == 2 ==> Le16(FromLe16(s)) == s
  {
  }

  lemma Le32Halves(low: seq<byte>, high: seq<byte>)
    requires |low| == 2 && |high| == 2
    ensures (low + high)[..2] == low && (low + high)[2..] == high
  {
  }

  lemma Halves(low: word, high: word)
    ensures (low + 0x1_0000 * high) % 0x1_0000 == low && (low + 0x1_0000 * high) / 0x1_0000 == high
  {
  }

  lemma Le32RoundTrip(n: nat, s: seq<byte>)
    ensures n < 0x1_0000_0000 ==> FromLe32(Le32(n)) == n
    ensures |s| == 4 ==> Le32(FromLe32(s)) == s
  {
    if n < 0x1_0000_0000 {
      Le32Halves(Le16(n % 0x1_0000), Le16(n / 0x1_0000));
      Le16RoundTrip(n % 0x1_0000, []);
      Le16RoundTrip(n / 0x1_0000, []);
    }
    if |s| == 4 {
      Le16RoundTrip(0, s[..2]);
      Le16RoundTrip(0, s[2..]);
      Rejoin(s, 2);
      Halves(FromLe16(s[..2]), FromLe16(s[2..]));
    }
  }

  function UnitBytes(units: seq<word>): seq<byte> {
    if units == [] then [] else Le16(units[0]) + UnitBytes(units[1..])
  }

  function Units(bytes: seq<byte>): seq<word>
    requires |bytes| % 2 == 0
  {
    if bytes == [] then [] else [FromLe16(bytes[..2])] + Units(bytes[2..])
  }

  lemma {:induction false} UnitsRoundTrip(units: seq<word>)
    ensures |UnitBytes(units)| == 2 * |units|
    ensures Units(UnitBytes(units)) == units
  {
    if units != [] {
      UnitsRoundTrip(units[1..]);
      assert UnitBytes(units)[..2] == Le16(units[0]) && UnitBytes(units)[2..] == UnitBytes(units[1..]);
    }
  }

  lemma {:induction false} UnitBytesRoundTrip(bytes: seq<byte>)
    requires |bytes| % 2 == 0
    ensures UnitBytes(Units(bytes)) == bytes && |Units(bytes)| == |bytes| / 2
  {
    if bytes != [] {
      UnitBytesRoundTrip(bytes[2..]);
      Le16RoundTrip(0, bytes[..2]);
      assert bytes == bytes[..2] + bytes[2..];
    }
  }

  // ----- encoder

  function EncodedLength(arg: Arg): nat {
    match arg
    case Bytes(bytes) => |bytes|
    case Wide(units) => 2 * |units|
  }

  function EncodeArg(arg: Arg): seq<byte>
    requires EncodedLength(arg) <= MAX_ARG_BYTES
  {
    match arg
    case Bytes(bytes) => [0] + Le32(|bytes|) + bytes
    case Wide(units) => [1] + Le32(2 * |units|) + UnitBytes(units)
  }

  ghost predicate ArgsFit(args: seq<Arg>) {
    forall i | 0 <= i < |args| :: EncodedLength(args[i]) <= MAX_ARG_BYTES
  }

  ghost function EncodeArgs(args: seq<Arg>): seq<byte>
    requires ArgsFit(args)
  {
    if args == [] then [] else EncodeArg(args[0]) + EncodeArgs(args[1..])
  }

  function EncodeFrame(kind: byte, payload: seq<byte>): Result<seq<byte>> {
    if |payload| > MAX_FRAME - HEADER then Err(FrameTooLarge)
    else Ok(MAGIC + Le16(VERSION) + [kind, 0] + Le32(|payload|) + payload)
  }

  ghost function RequestPayload(token: Id, request: Request): seq<byte>
    requires |request.args| <= MAX_ARGS && ArgsFit(request.args)
  {
    token + request.id + Le16(|request.args|) + EncodeArgs(request.args)
  }

  ghost function EncodeRequest(token: Id, request: Request): Result<seq<byte>> {
    if |request.args| > MAX_ARGS then Err(TooManyArguments)
    else if !ArgsFit(request.args) then Err(ArgumentTooLarge)
    else EncodeFrame(REQUEST_KIND, RequestPayload(token, request))
  }

  lemma {:induction false} EncodeArgsAppend(args: seq<Arg>, arg: Arg)
    requires ArgsFit(args) && EncodedLength(arg) <= MAX_ARG_BYTES
    ensures ArgsFit(args + [arg]) && EncodeArgs(args + [arg]) == EncodeArgs(args) + EncodeArg(arg)
  {
    if args != [] {
      TailOfConcat(args, [arg]);
      EncodeArgsAppend(args[1..], arg);
      Assoc(EncodeArg(args[0]), EncodeArgs(args[1..]), EncodeArg(arg));
    } else {
      WithEmpty([arg]);
      WithEmpty(EncodeArg(arg));
      assert [arg][1..] == [];
    }
  }

  method PushArg(payload: seq<byte>, arg: Arg) returns (r: seq<byte>)
    requires EncodedLength(arg) <= MAX_ARG_BYTES
    ensures r == payload + EncodeArg(arg)
  {
    r := payload;
    match arg {
      case Bytes(bytes) =>
        r := r + [0];
        r := r + Le32(|bytes|);
        r := r + bytes;
      case Wide(units) =>
        r := r + [1];
        r := r + Le32(2 * |units|);
        r := PushUnits(r, units);
    }
  }

  method PushUnits(head: seq<byte>, units: seq<word>) returns (r: seq<byte>)
    ensures r == head + UnitBytes(units)
  {
    r := head;
    WithEmpty(head);
    for i := 0 to |units|
      invariant r == head + UnitBytes(units[..i])
    {
      UnitBytesAppend(units[..i], units[i]);
      TakeSnoc(units, i);
      Assoc(head, UnitBytes(units[..i]), Le16(units[i]));
      r := r + Le16(units[i]);
    }
    assert units[..|units|] == units;
  }

  lemma {:induction false} UnitBytesAppend(units: seq<word>, unit: word)
    ensures UnitBytes(units + [unit]) == UnitBytes(units) + Le16(unit)
  {
    if units != [] {
      UnitBytesAppend(units[1..], unit);
      assert (units + [unit])[1..] == units[1..] + [unit];
    }
  }

  method PushArgs(head: seq<byte>, args: seq<Arg>) returns (r: Result<seq<byte>>)
    ensures r == if ArgsFit(args) then Ok(head + EncodeArgs(args)) else Err(ArgumentTooLarge)
  {
    var payload := head;
    for i := 0 to |args|
      invariant ArgsFit(args[..i])
      invariant payload == head + EncodeArgs(args[..i])
    {
      if EncodedLength(args[i]) > MAX_ARG_BYTES {
        return Err(ArgumentTooLarge);
      }
      PushStep(head, args, i);
      payload := PushArg(payload, args[i]);
    }
    assert args[..|args|] == args;
    return Ok(payload);
  }

  lemma PushStep(head: seq<byte>, args: seq<Arg>, i: nat)
    requires i < |args| && ArgsFit(args[..i]) && EncodedLength(args[i]) <= MAX_ARG_BYTES
    ensures ArgsFit(args[..i + 1])
    ensures head + EncodeArgs(args[..i + 1]) == head + EncodeArgs(args[..i]) + EncodeArg(args[i])
  {
    EncodeArgsAppend(args[..i], args[i]);
    TakeSnoc(args, i);
    Assoc(head, EncodeArgs(args[..i]), EncodeArg(args[i]));
  }

  /** The source builds the payload by extending one buffer. */
  method EncodeActivationRequest(token: Id, request: Request) returns (r: Result<seq<byte>>)
    ensures r == EncodeRequest(token, request)
  {
    if |request.args| > MAX_ARGS {
      return Err(TooManyArguments);
    }
    var payload :- PushArgs(token + request.id + Le16(|request.args|), request.args);
    return EncodeFrame(REQUEST_KIND, payload);
  }

  // ----- decoder

  function DecodeFrame(frame: seq<byte>, expectedKind: byte): Result<seq<byte>> {
    if |frame| < HEADER then Err(Truncated)
    else if frame[..4] != MAGIC then Err(InvalidMagic)
    else if FromLe16(frame[4..6]) != VERSION then Err(UnsupportedVersion(FromLe16(frame[4..6])))
    else if frame[6] != expectedKind then Err(UnexpectedKind(frame[6]))
    else
      var length := FromLe32(frame[8..12]);
      if length > MAX_FRAME - HEADER then Err(FrameTooLarge)
      else if |frame| < HEADER + length then Err(Truncated)
      else if |frame| != HEADER + length then Err(TrailingData)
      else Ok(frame[HEADER..])
  }

  function ParseArg(s: seq<byte>): Result<(Arg, seq<byte>)> {
    if |s| < 5 then Err(Truncated)
    else
      var (tag, length) := (s[0], FromLe32(s[1..5]));
      if length > MAX_ARG_BYTES then Err(ArgumentTooLarge)
      else if |s| < 5 + length then Err(Truncated)
      else
        var (body, rest) := (s[5..5 + length], s[5 + length..]);
        if tag == 0 then Ok((Bytes(body), rest))
        else if tag != 1 then Err(InvalidArgumentEncoding(tag))
        else if length % 2 != 0 then Err(InvalidWideArgument)
        else Ok((Wide(Units(body)), rest))
  }

  /** The argument that starts at an offset of the payload, and where it ends. */
  function ArgAt(bytes: seq<byte>, at: nat): Result<(Arg, nat)>
    requires at <= |bytes|
  {
    if |bytes| < at + 5 then Err(Truncated)
    else
      var (tag, length) := (bytes[at], FromLe32(bytes[at + 1..at + 5]));
      var end := at + 5 + length;
      if length > MAX_ARG_BYTES then Err(ArgumentTooLarge)
      else if |bytes| < end then Err(Truncated)
      else if tag == 0 then Ok((Bytes(bytes[at + 5..end]), end))
      else if tag != 1 then Err(InvalidArgumentEncoding(tag))
      else if length % 2 != 0 then Err(InvalidWideArgument)
      else Ok((Wide(Units(bytes[at + 5..end])), end))
  }

  lemma ArgAtParses(bytes: seq<byte>, at: nat)
    requires at <= |bytes|
    ensures match ArgAt(bytes, at)
            case Err(e) => ParseArg(bytes[at..]) == Err(e)
            case Ok((arg, end)) => at <= end <= |bytes| && ParseArg(bytes[at..]) == Ok((arg, bytes[end..]))
  {
    if at + 5 <= |bytes| {
      SliceOfRest(bytes, at, 1, 5);
      var end := 5 + FromLe32(bytes[at + 1..at + 5]);
      if at + end <= |bytes| {
        SliceOfRest(bytes, at, 5, end);
      }
    }
  }

  lemma SliceOfRest(bytes: seq<byte>, at: nat, i: nat, j: nat)
    requires i <= j && at + j <= |bytes|
    ensures bytes[at..][i..j] == bytes[at + i..at + j] && bytes[at..][j..] == bytes[at + j..]
  {
  }

  function ParseArgs(s: seq<byte>, count: nat): Result<(seq<Arg>, seq<byte>)> {
    if count == 0 then Ok(([], s))
    else
      var (arg, rest) :- ParseArg(s);
      var (args, rest') :- ParseArgs(rest, count - 1);
      Ok(([arg] + args, rest'))
  }

  function ParseRequest(payload: seq<byte>): Result<(Id, Request)> {
    if |payload| < 34 then Err(Truncated)
    else
      var count := FromLe16(payload[32..34]);
      if count > MAX_ARGS then Err(TooManyArguments)
      else
        var (args, rest) :- ParseArgs(payload[34..], count);
        if rest != [] then Err(TrailingData)
        else Ok((payload[..16], Request(payload[16..32], args)))
  }

  function DecodeRequest(frame: seq<byte>): Result<(Id, Request)> {
    var payload :- DecodeFrame(frame, REQUEST_KIND);
    ParseRequest(payload)
  }

  /** The reading position in a payload; it never passes the end. */
  class Cursor {
    const bytes: seq<byte>
    var offset: nat

    ghost predicate Valid()
      reads this
    {
      offset <= |bytes|
    }

    constructor (bytes: seq<byte>)
      ensures this.bytes == bytes && offset == 0 && Valid()
    {
      this.bytes := bytes;
      offset := 0;
    }

    method ReadBytes(length: nat) returns (r: Result<seq<byte>>)
      requires Valid()
      modifies this
      ensures Valid()
      ensures r == if old(offset) + length > |bytes| then Err(Truncated) else Ok(bytes[old(offset)..old(offset) + length])
      ensures offset == old(offset) + if r.Ok? then length else 0
    {
      var end := offset + length;
      if end > |bytes| {
        return Err(Truncated);
      }
      r := Ok(bytes[offset..end]);
      offset := end;
    }

    method ReadArg() returns (r: Result<Arg>)
      requires Valid()
      modifies this
      ensures Valid()
      ensures match ArgAt(bytes, old(offset))
              case Err(e) => r == Err(e)
              case Ok((arg, end)) => r == Ok(arg) && offset == end
    {
      var tag :- ReadBytes(1);
      var size :- ReadBytes(4);
      var length := FromLe32(size);
      if length > MAX_ARG_BYTES {
        return Err(ArgumentTooLarge);
      }
      var body :- ReadBytes(length);
      match tag[0] {
        case 0 => return Ok(Bytes(body));
        case 1 =>
          if length % 2 != 0 {
            return Err(InvalidWideArgument);
          }
          return Ok(Wide(Units(body)));
        case other => return Err(InvalidArgumentEncoding(other));
      }
    }
  }

  method ReadArgs(cursor: Cursor, count: nat) returns (r: Result<seq<Arg>>)
    requires cursor.Valid()
    modifies cursor
    ensures cursor.Valid()
    ensures match ParseArgs(cursor.bytes[old(cursor.offset)..], count)
            case Err(e) => r == Err(e)
            case Ok((args, rest)) => r == Ok(args) && cursor.bytes[cursor.offset..] == rest
  {
    var args: seq<Arg> := [];
    ghost var whole := ParseArgs(cursor.bytes[cursor.offset..], count);
    PrependNothing(whole);
    for i := 0 to count
      invariant cursor.Valid()
      invariant whole == Prepend(args, ParseArgs(cursor.bytes[cursor.offset..], count - i))
    {
      ReadStep(args, cursor.bytes, cursor.offset, count - i);
      var arg :- cursor.ReadArg();
      args := args + [arg];
    }
    WithEmpty(args);
    return Ok(args);
  }

  method DecodeActivationRequest(frame: seq<byte>) returns (r: Result<(Id, Request)>)
    ensures r == DecodeRequest(frame)
  {
    var payload :- DecodeFrame(frame, REQUEST_KIND);
    var cursor := new Cursor(payload);
    var token :- cursor.ReadBytes(16);
    var id :- cursor.ReadBytes(16);
    var countBytes :- cursor.ReadBytes(2);
    var count := FromLe16(countBytes);
    if count > MAX_ARGS {
      return Err(TooManyArguments);
    }
    var args :- ReadArgs(cursor, count);
    if cursor.offset != |payload| {
      return Err(TrailingData);
    }
    return Ok((token, Request(id, args)));
  }

  ghost function Prepend(args: seq<Arg>, r: Result<(seq<Arg>, seq<byte>)>): Result<(seq<Arg>, seq<byte>)> {
    match r
    case Err(e) => Err(e)
    case Ok((more, rest)) => Ok((args + more, rest))
  }

  lemma PrependNothing(r: Result<(seq<Arg>, seq<byte>)>)
    ensures Prepend([], r) == r
  {
    match r
    case Err(_) =>
    case Ok((more, _)) => assert [] + more == more;
  }

  lemma PrependStep(args: seq<Arg>, s: seq<byte>, count: nat)
    requires count > 0
    ensures Prepend(args, ParseArgs(s, count)) ==
              match ParseArg(s)
              case Err(e) => Err(e)
              case Ok((arg, rest)) => Prepend(args + [arg], ParseArgs(rest, count - 1))
  {
    if ParseArg(s).Ok? && ParseArgs(ParseArg(s).value.1, count - 1).Ok? {
      var (arg, rest) := ParseArg(s).value;
      var more := ParseArgs(rest, count - 1).value.0;
      assert args + ([arg] + more) == args + [arg] + more;
    }
  }

  lemma ReadStep(args: seq<Arg>, bytes: seq<byte>, at: nat, count: nat)
    requires at <= |bytes| && count > 0
    ensures match ArgAt(bytes, at)
            case Err(e) => Prepend(args, ParseArgs(bytes[at..], count)) == Err(e)
            case Ok((arg, end)) => end <= |bytes| && Prepend(args, ParseArgs(bytes[at..], count))
                                                  == Prepend(args + [arg], ParseArgs(bytes[end..], count - 1))
  {
    ArgAtParses(bytes, at);
    PrependStep(args, bytes[at..], count);
  }

  // ----- the two undo each other

  lemma ParseArgLayout(tag: byte, body: seq<byte>, rest: seq<byte>)
    requires |body| <= MAX_ARG_BYTES
    ensures var s := [tag] + Le32(|body|) + body + rest;
            && |s| >= 5 + |body| && s[0] == tag && FromLe32(s[1..5]) == |body|
            && s[5..5 + |body|] == body && s[5 + |body|..] == rest
  {
    var s := [tag] + Le32(|body|) + body + rest;
    Le32RoundTrip(|body|, []);
    assert s[1..5] == Le32(|body|);
  }

  lemma ParseArgUndoes(arg: Arg, rest: seq<byte>)
    requires EncodedLength(arg) <= MAX_ARG_BYTES
    ensures ParseArg(EncodeArg(arg) + rest) == Ok((arg, rest))
  {
    match arg
    case Bytes(bytes) => ParseArgLayout(0, bytes, rest);
    case Wide(units) =>
      UnitsRoundTrip(units);
      ParseArgLayout(1, UnitBytes(units), rest);
  }

  lemma ParseArgCanonical(s: seq<byte>)
    requires ParseArg(s).Ok?
    ensures var (arg, rest) := ParseArg(s).value;
            EncodedLength(arg) <= MAX_ARG_BYTES && s == EncodeArg(arg) + rest
  {
    var length := FromLe32(s[1..5]);
    var body := s[5..5 + length];
    Le32RoundTrip(0, s[1..5]);
    if s[0] == 1 {
      UnitBytesRoundTrip(body);
    }
    assert s == [s[0]] + s[1..5] + body + s[5 + length..];
  }

  lemma {:induction false} ParseArgsUndoes(args: seq<Arg>, rest: seq<byte>)
    requires ArgsFit(args)
    ensures ParseArgs(EncodeArgs(args) + rest, |args|) == Ok((args, rest))
  {
    if args == [] {
      WithEmpty(rest);
    } else {
      var more := EncodeArgs(args[1..]) + rest;
      ParseArgsUndoes(args[1..], rest);
      ParseArgUndoes(args[0], more);
      Assoc(EncodeArg(args[0]), EncodeArgs(args[1..]), rest);
      ParseArgsCons(EncodeArg(args[0]) + more, more, args[0], args[1..], rest);
      AsCons(args);
    }
  }

  lemma ParseArgsCons(s: seq<byte>, more: seq<byte>, arg: Arg, args: seq<Arg>, rest: seq<byte>)
    requires ParseArg(s) == Ok((arg, more)) && ParseArgs(more, |args|) == Ok((args, rest))
    ensures ParseArgs(s, |args| + 1) == Ok(([arg] + args, rest))
  {
  }

  lemma {:induction false} ParseArgsCanonical(s: seq<byte>, count: nat)
    requires ParseArgs(s, count).Ok?
    ensures var (args, rest) := ParseArgs(s, count).value;
            |args| == count && ArgsFit(args) && s == EncodeArgs(args) + rest
    decreases count
  {
    if count > 0 {
      var (arg, rest) := ParseArg(s).value;
      ParseArgCanonical(s);
      ParseArgsCanonical(rest, count - 1);
      var (args, rest') := ParseArgs(rest, count - 1).value;
      ArgInFront(arg, args, rest');
    }
  }

  lemma ArgInFront(arg: Arg, args: seq<Arg>, rest: seq<byte>)
    requires EncodedLength(arg) <= MAX_ARG_BYTES && ArgsFit(args)
    ensures ArgsFit([arg] + args) && EncodeArg(arg) + (EncodeArgs(args) + rest) == EncodeArgs([arg] + args) + rest
  {
    ConsParts(arg, args);
    Assoc(EncodeArg(arg), EncodeArgs(args), rest);
  }

  lemma FrameUndoes(kind: byte, payload: seq<byte>)
    requires EncodeFrame(kind, payload).Ok?
    ensures DecodeFrame(EncodeFrame(kind, payload).value, kind) == Ok(payload)
    ensures |EncodeFrame(kind, payload).value| == HEADER + |payload|
  {
    var frame := EncodeFrame(kind, payload).value;
    Le32RoundTrip(|payload|, []);
    Le16RoundTrip(VERSION, []);
    assert frame[..4] == MAGIC && frame[4..6] == Le16(VERSION) && frame[8..12] == Le32(|payload|);
    assert frame[HEADER..] == payload;
  }

  /** A frame that decodes is the encoding of its payload, except that byte 7 is not looked at. */
  lemma FrameCanonical(frame: seq<byte>, kind: byte)
    requires DecodeFrame(frame, kind).Ok?
    ensures EncodeFrame(kind, DecodeFrame(frame, kind).value) == Ok(frame[7 := 0])
  {
    Le32RoundTrip(0, frame[8..12]);
    Le16RoundTrip(VERSION, frame[4..6]);
    var f := frame[7 := 0];
    assert f == frame[..4] + frame[4..6] + [frame[6], 0] + frame[8..12] + frame[12..];
  }

  /** Decoding gives back exactly what was encoded. */
  lemma RequestRoundTrip(token: Id, request: Request)
    requires EncodeRequest(token, request).Ok?
    ensures DecodeRequest(EncodeRequest(token, request).value) == Ok((token, request))
  {
    var payload := RequestPayload(token, request);
    FrameUndoes(REQUEST_KIND, payload);
    ParseArgsUndoes(request.args, []);
    Le16RoundTrip(|request.args|, []);
    PayloadLayout(token, request.id, Le16(|request.args|), EncodeArgs(request.args));
    WithEmpty(EncodeArgs(request.args));
  }

  lemma PayloadLayout(token: Id, id: Id, count: seq<byte>, args: seq<byte>)
    requires |count| == 2
    ensures var p := token + id + count + args;
            |p| >= 34 && p[..16] == token && p[16..32] == id && p[32..34] == count && p[34..] == args
  {
  }

  lemma PayloadCanonical(payload: seq<byte>)
    requires ParseRequest(payload).Ok?
    ensures var (token, request) := ParseRequest(payload).value;
            |request.args| <= MAX_ARGS && ArgsFit(request.args) && RequestPayload(token, request) == payload
  {
    ParseArgsCanonical(payload[34..], FromLe16(payload[32..34]));
    Le16RoundTrip(0, payload[32..34]);
    PayloadParts(payload);
  }

  /** A frame that decodes re-encodes to itself if and only if its reserved byte is zero. */
  lemma RequestCanonical(frame: seq<byte>)
    requires DecodeRequest(frame).Ok?
    ensures var (token, request) := DecodeRequest(frame).value;
            && EncodeRequest(token, request) == Ok(frame[7 := 0])
            && (EncodeRequest(token, request) == Ok(frame) <==> frame[7] == 0)
  {
    FrameCanonical(frame, REQUEST_KIND);
    PayloadCanonical(DecodeFrame(frame, REQUEST_KIND).value);
    assert frame[7 := 0][7] == 0 && (frame[7] == 0 ==> frame[7 := 0] == frame);
  }

  /** The reserved byte is never looked at, so a frame that decodes does so with any value there. */
  lemma FrameByteIgnored(frame: seq<byte>, kind: byte, b: byte)
    requires |frame| >= HEADER
    ensures DecodeFrame(frame[7 := b], kind) == DecodeFrame(frame, kind)
  {
    var f := frame[7 := b];
    assert f[..4] == frame[..4] && f[4..6] == frame[4..6];
    assert f[8..12] == frame[8..12] && f[HEADER..] == frame[HEADER..];
  }

  lemma ReservedByteIgnored(frame: seq<byte>, b: byte)
    requires |frame| >= HEADER
    ensures DecodeRequest(frame[7 := b]) == DecodeRequest(frame) && DecodeAck(frame[7 := b]) == DecodeAck(frame)
  {
    FrameByteIgnored(frame, REQUEST_KIND, b);
    FrameByteIgnored(frame, ACK_KIND, b);
  }

  lemma PayloadParts(payload: seq<byte>)
    requires |payload| >= 34
    ensures payload[..16] + payload[16..32] + payload[32..34] + payload[34..] == payload
  {
  }

  /** Every strict prefix is reported as truncated, every strict extension as trailing data. */
  lemma FrameLengthExact(frame: seq<byte>, kind: byte, n: nat, more: seq<byte>)
    requires DecodeFrame(frame, kind).Ok?
    ensures n < |frame| ==> DecodeFrame(frame[..n], kind) == Err(Truncated)
    ensures more != [] ==> DecodeFrame(frame + more, kind) == Err(TrailingData)
  {
    if HEADER <= n < |frame| {
      SameHeader(frame, frame[..n], n);
    }
    SameHeader(frame + more, frame, |frame|);
  }

  /** Two byte strings that agree on the first `n >= 12` bytes have the same header fields. */
  lemma SameHeader(a: seq<byte>, b: seq<byte>, n: nat)
    requires HEADER <= n <= |a| && n <= |b| && a[..n] == b[..n]
    ensures a[..4] == b[..4] && a[4..6] == b[4..6] && a[6] == b[6] && a[8..12] == b[8..12]
  {
    assert forall i | 0 <= i < n :: a[i] == a[..n][i] && b[i] == b[..n][i];
  }

  lemma RequestLengthExact(frame: seq<byte>, n: nat, more: seq<byte>)
    requires DecodeRequest(frame).Ok?
    ensures n < |frame| ==> DecodeRequest(frame[..n]) == Err(Truncated)
    ensures more != [] ==> DecodeRequest(frame + more) == Err(TrailingData)
  {
    FrameLengthExact(frame, REQUEST_KIND, n, more);
  }

  // ----- acknowledgements

  function StatusByte(status: AckStatus): byte {
    match status
    case Accepted => 0
    case QueueFull => 1
    case ShuttingDown => 2
    case InvalidRequest => 3
  }

  function StatusFrom(b: byte): Result<AckStatus> {
    match b
    case 0 => Ok(Accepted)
    case 1 => Ok(QueueFull)
    case 2 => Ok(ShuttingDown)
    case 3 => Ok(InvalidRequest)
    case _ => Err(InvalidAckStatus(b))
  }

  function EncodeAck(ack: Ack): Result<seq<byte>> {
    EncodeFrame(ACK_KIND, ack.id + [StatusByte(ack.status)])
  }

  function DecodeAck(frame: seq<byte>): Result<Ack> {
    var payload :- DecodeFrame(frame, ACK_KIND);
    if |payload| < 17 then Err(Truncated)
    else
      var status :- StatusFrom(payload[16]);
      if |payload| > 17 then Err(TrailingData) else Ok(Ack(payload[..16], status))
  }

  /** The ACK codec is total and exact in the same way. */
  lemma AckRoundTrip(ack: Ack, frame: seq<byte>, n: nat, more: seq<byte>)
    ensures EncodeAck(ack).Ok? && DecodeAck(EncodeAck(ack).value) == Ok(ack)
    ensures DecodeAck(frame).Ok? ==> EncodeAck(DecodeAck(frame).value) == Ok(frame[7 := 0])
    ensures DecodeAck(frame).Ok? && n < |frame| ==> DecodeAck(frame[..n]) == Err(Truncated)
    ensures DecodeAck(frame).Ok? && more != [] ==> DecodeAck(frame + more) == Err(TrailingData)
  {
    FrameUndoes(ACK_KIND, ack.id + [StatusByte(ack.status)]);
    assert (ack.id + [StatusByte(ack.status)])[..16] == ack.id;
    if DecodeAck(frame).Ok? {
      var payload := DecodeFrame(frame, ACK_KIND).value;
      FrameCanonical(frame, ACK_KIND);
      FrameLengthExact(frame, ACK_KIND, n, more);
      assert payload == payload[..16] + [payload[16]];
    }
  }
}
