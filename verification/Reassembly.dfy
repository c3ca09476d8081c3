/** Handshake messages out of a growing buffer (tls13.py), and why the way they arrive does not matter. */
module Reassembly {
  import opened Bytes
  import opened Messages
  import opened ProofFormat

  const MAX_CAPTURED_HANDSHAKE := 64 * 1024

  /** Where a capture raises. */
  datatype Failure =
    | InvalidArguments | ConnectionFailed | PeerClosed | InvalidRecordVersion | RecordTooLarge
    | Alert | UnexpectedRecord | HandshakeTooLarge | DataAfterServerHello | BadServerHello | BadPublicKey
    | SequenceOverflow | AuthenticationFailed | NoContentType | UnexpectedContent | CapturedTooLarge
    | UnexpectedMessage | BadCertificate | ProofRefused | DisallowedScheme

  datatype Result<+T> = Ok(value: T) | Err(failure: Failure) {

    predicate IsFailure() {
      Err?
    }

    function PropagateFailure<U>(): Result<U>
      requires Err?
    {
      Err(failure)
    }

    function Extract(): T
      requires Ok?
    {
      value
    }
  }

  /** `_pop_handshake`: the complete message at the front of the buffer and what is left of it. */
  function Pop(buffer: bytes): (r: Result<Option<(bytes, bytes)>>)
    ensures r.Ok? && r.value.Some? ==> 4 <= |r.value.value.0| <= MAX_CAPTURED_HANDSHAKE
                                       && buffer == r.value.value.0 + r.value.value.1
    ensures r == Ok(None) ==> |buffer| < MAX_CAPTURED_HANDSHAKE
  {
    if |buffer| < 4 then Ok(None)
    else
      var size := BE(buffer[1..4]) + 4;
      if size > MAX_CAPTURED_HANDSHAKE then Err(HandshakeTooLarge)
      else if |buffer| < size then Ok(None)
      else Ok(Some((buffer[..size], buffer[size..])))
  }

  /** A message that is complete stays the first one, whatever else arrives. */
  lemma PopContinues(buffer: bytes, more: bytes)
    requires Pop(buffer).Ok? && Pop(buffer).value.Some?
    ensures Pop(buffer + more)
            == Ok(Some((Pop(buffer).value.value.0, Pop(buffer).value.value.1 + more)))
  {
    hide BE;
    var size := BE(buffer[1..4]) + 4;
    assert (buffer + more)[1..4] == buffer[1..4];
    assert (buffer + more)[..size] == buffer[..size] && (buffer + more)[size..] == buffer[size..] + more;
  }

  /** A popped message is a handshake message: its type, a three-byte length, and a body of that length. */
  lemma PopFramed(buffer: bytes)
    requires Pop(buffer).Ok? && Pop(buffer).value.Some?
    ensures var m := Pop(buffer).value.value.0;
            m == Handshake(m[0], m[4..]) && |m[4..]| < 0x100_0000
  {
    hide BE, ToBE;
    var m := Pop(buffer).value.value.0;
    assert m[1..4] == buffer[1..4];
    ToBEInverse(m[1..4]);
    SmallConstants();
    assert |m[4..]| == BE(m[1..4]);
    assert m == [m[0]] + (m[1..4] + m[4..]);
  }

  const EXPECTED: seq<byte> := [ENCRYPTED_EXTENSIONS, CERTIFICATE, CERTIFICATE_VERIFY]

  /** Whether the X.509 library loads every certificate and their RSA exponents are within bounds. */
  type Loader = seq<bytes> -> bool

  /** The checks on the next captured message; the certificate is looked at as soon as it is complete. */
  function CheckMessage(loads: Loader, index: nat, message: bytes): Result<()>
    requires index < 3 && |message| >= 4
  {
    if message[0] != EXPECTED[index] then Err(UnexpectedMessage)
    else if message[0] == CERTIFICATE then
      match DecodeCertificateMessage(message)
      case None => Err(BadCertificate)
      case Some(entries) => if loads(Chain(entries)) then Ok(()) else Err(BadCertificate)
    else Ok(())
  }

  /** The inner loop: pop until three messages are captured or the buffer holds no complete one. */
  function PopAll(loads: Loader, captured: seq<bytes>, buffer: bytes): (r: Result<(seq<bytes>, bytes)>)
    requires |captured| <= 3
    ensures r.Ok? ==> |r.value.0| <= 3
    decreases 3 - |captured|
  {
    if |captured| == 3 then Ok((captured, buffer))
    else
      var next :- Pop(buffer);
      if next.None? then Ok((captured, buffer))
      else
        var _ :- CheckMessage(loads, |captured|, next.value.0);
        PopAll(loads, captured + [next.value.0], next.value.1)
  }

  /** Popping, receiving more and popping again is popping once from everything received. */
  lemma {:induction false} PopAllContinues(loads: Loader, captured: seq<bytes>, buffer: bytes, more: bytes)
    requires |captured| <= 3 && PopAll(loads, captured, buffer).Ok?
    ensures var (c, b) := PopAll(loads, captured, buffer).value;
            PopAll(loads, captured, buffer + more) == PopAll(loads, c, b + more)
    decreases 3 - |captured|
  {
    hide Pop, CheckMessage;
    if |captured| < 3 && Pop(buffer).value.Some? {
      var (m, rest) := Pop(buffer).value.value;
      PopContinues(buffer, more);
      PopAllContinues(loads, captured + [m], rest, more);
    }
  }

  /** Nothing is lost or reordered: the captured messages and the leftover are what went in. */
  lemma {:induction false} PopAllConserves(loads: Loader, captured: seq<bytes>, buffer: bytes)
    requires |captured| <= 3 && PopAll(loads, captured, buffer).Ok?
    ensures var (c, b) := PopAll(loads, captured, buffer).value;
            && captured <= c && Join(c) + b == Join(captured) + buffer
            && (|c| < 3 ==> |b| < MAX_CAPTURED_HANDSHAKE)
    decreases 3 - |captured|
  {
    hide Pop, CheckMessage, Join;
    if |captured| < 3 && Pop(buffer).value.Some? {
      var (m, rest) := Pop(buffer).value.value;
      PopAllConserves(loads, captured + [m], rest);
      JoinSnoc(captured, m);
      Assoc(Join(captured), m, rest);
    }
  }

  /** Captures that complete over prefixes of one stream capture the same three messages. */
  lemma CompletedCapturesAgree(loads: Loader, x: bytes, y: bytes, stream: bytes)
    requires x <= stream && y <= stream
    requires PopAll(loads, [], x).Ok? && |PopAll(loads, [], x).value.0| == 3
    requires PopAll(loads, [], y).Ok? && |PopAll(loads, [], y).value.0| == 3
    ensures PopAll(loads, [], x).value.0 == PopAll(loads, [], y).value.0
  {
    hide Pop, CheckMessage;
    assert stream == x + stream[|x|..] == y + stream[|y|..];
    PopAllContinues(loads, [], x, stream[|x|..]);
    PopAllContinues(loads, [], y, stream[|y|..]);
  }

  /** A message as it is captured in position `index`: framed, of the expected type, checked. */
  predicate Captured(loads: Loader, index: nat, m: bytes) {
    && index < 3 && 4 <= |m| <= MAX_CAPTURED_HANDSHAKE && m == Handshake(m[0], m[4..])
    && CheckMessage(loads, index, m).Ok?
  }

  /** Every message that is captured was framed, of the expected type, and checked. */
  lemma {:induction false} PopAllShape(loads: Loader, captured: seq<bytes>, buffer: bytes)
    requires |captured| <= 3 && PopAll(loads, captured, buffer).Ok?
    requires forall i :: 0 <= i < |captured| ==> Captured(loads, i, captured[i])
    ensures var c := PopAll(loads, captured, buffer).value.0;
            forall i :: 0 <= i < |c| ==> Captured(loads, i, c[i])
    decreases 3 - |captured|
  {
    hide Pop, CheckMessage, Handshake;
    if |captured| < 3 && Pop(buffer).value.Some? {
      var (m, rest) := Pop(buffer).value.value;
      PopFramed(buffer);
      PopAllShape(loads, captured + [m], rest);
    }
  }
}
