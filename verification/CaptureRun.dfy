/** The capture as it runs over a socket (tls13.py): arbitrary chunks, a deadline that may pass at any
    receive, and byte buffers that are extended and cut in place. */
module CaptureRun {
  import opened Bytes
  import opened Signatures
  import opened Messages
  import opened ProofFormat
  import opened ClientHelloBuilder
  import opened Records
  import opened Reassembly
  import opened Capture
  import Parser
  import ServerHelloParser

  /** A connected socket. `incoming` is everything the peer still sends before it closes; `broken` records that
      the deadline passed or the socket failed. */
  class Connection {
    var incoming: bytes
    ghost var broken: bool

    constructor (incoming: bytes)
      ensures this.incoming == incoming && !broken
    {
      this.incoming := incoming;
      broken := false;
    }

    /** Some of the next bytes, at most `limit`, none only once the peer has closed; or a failure, at any time. */
    method Recv(limit: nat) returns (r: Option<bytes>)
      requires limit > 0 && !broken
      modifies this
      ensures broken <==> r.None?
      ensures r.Some? ==> r.value + incoming == old(incoming) && |r.value| <= limit
      ensures r.Some? ==> (r.value == [] <==> old(incoming) == [])
    {
      if * {
        broken := true;
        return None;
      }
      var size: int := *;
      if size < 1 {
        size := 1;
      }
      if size > limit {
        size := limit;
      }
      if size > |incoming| {
        size := |incoming|;
      }
      r := Some(incoming[..size]);
      incoming := incoming[size..];
    }
  }

  /** A growing byte buffer; `peak` is the most it ever held. */
  class Buffer {
    var contents: bytes
    ghost var peak: nat

    constructor ()
      ensures contents == [] && peak == 0
    {
      contents := [];
      peak := 0;
    }

    method Extend(more: bytes)
      modifies this
      ensures contents == old(contents) + more
      ensures peak == if |contents| > old(peak) then |contents| else old(peak)
    {
      contents := contents + more;
      peak := if |contents| > peak then |contents| else peak;
    }

    /** `_pop_handshake`. */
    method PopHandshake() returns (r: Result<Option<bytes>>)
      modifies this
      ensures peak == old(peak)
      ensures match Pop(old(contents))
              case Err(e) => r == Err(e) && contents == old(contents)
              case Ok(None) => r == Ok(None) && contents == old(contents)
              case Ok(Some((message, rest))) => r == Ok(Some(message)) && contents == rest
    {
      if |contents| < 4 {
        return Ok(None);
      }
      var size := BE(contents[1..4]) + 4;
      if size > MAX_CAPTURED_HANDSHAKE {
        return Err(HandshakeTooLarge);
      }
      if |contents| < size {
        return Ok(None);
      }
      var result := contents[..size];
      contents := contents[size..];
      return Ok(Some(result));
    }
  }

  method RecvExact(connection: Connection, size: nat) returns (r: Result<bytes>)
    requires !connection.broken
    modifies connection
    ensures if connection.broken then r == Err(ConnectionFailed)
            else if |old(connection.incoming)| < size then r == Err(PeerClosed)
            else r.Ok? && |r.value| == size && r.value + connection.incoming == old(connection.incoming)
  {
    var result: bytes := [];
    while |result| < size
      invariant |result| <= size && result + connection.incoming == old(connection.incoming) && !connection.broken
    {
      var chunk := connection.Recv(size - |result|);
      if chunk.None? {
        return Err(ConnectionFailed);
      }
      if chunk.value == [] {
        return Err(PeerClosed);
      }
      Assoc(result, chunk.value, connection.incoming);
      result := result + chunk.value;
    }
    return Ok(result);
  }

  method RecvRecord(connection: Connection) returns (r: Result<Record>)
    requires !connection.broken
    modifies connection
    ensures connection.broken ==> r == Err(ConnectionFailed)
    ensures !connection.broken && r.Ok? ==> TakeRecord(old(connection.incoming)) == Ok((r.value, connection.incoming))
    ensures !connection.broken && r.Err? ==> TakeRecord(old(connection.incoming)) == Err(r.failure)
  {
    hide BE;
    ghost var s := connection.incoming;
    var header :- RecvExact(connection, 5);
    assert s[..5] == header && s[5..] == connection.incoming;
    assert header[1..3] == s[1..3] && header[3..5] == s[3..5];
    var version, size := BE(header[1..3]), BE(header[3..5]);
    if version < 0x0300 {
      return Err(InvalidRecordVersion);
    }
    if size > MAX_TLS_CIPHERTEXT {
      return Err(RecordTooLarge);
    }
    var fragment :- RecvExact(connection, size);
    assert s[5..][..size] == fragment && s[5..][size..] == connection.incoming;
    return Ok(Record(header[0], header, fragment));
  }

  /** The loop that waits for ServerHello. However the handshake bytes are cut into records, the buffer holds
      less than one maximal message whenever the loop waits, and never more than that and one record. */
  method ReadServerHello(connection: Connection, buffer: Buffer) returns (r: Result<bytes>)
    requires buffer.contents == [] && buffer.peak == 0 && !connection.broken
    modifies connection, buffer
    ensures connection.broken ==> r == Err(ConnectionFailed)
    ensures !connection.broken && r.Ok? ==>
              PlainPhase(old(connection.incoming), []) == Ok((r.value, connection.incoming))
    ensures !connection.broken && r.Err? ==> PlainPhase(old(connection.incoming), []) == Err(r.failure)
    ensures buffer.peak <= MAX_CAPTURED_HANDSHAKE - 1 + MAX_TLS_CIPHERTEXT
  {
    hide TakeRecord, Pop;
    var serverHello: Option<bytes> := None;
    while serverHello.None?
      invariant !connection.broken
      invariant serverHello.None? ==> |buffer.contents| < MAX_CAPTURED_HANDSHAKE
      invariant buffer.peak <= MAX_CAPTURED_HANDSHAKE - 1 + MAX_TLS_CIPHERTEXT
      invariant serverHello.None? ==>
                  PlainPhase(old(connection.incoming), []) == PlainPhase(connection.incoming, buffer.contents)
      invariant serverHello.Some? ==>
                  PlainPhase(old(connection.incoming), [])
                  == if buffer.contents != [] then Err(DataAfterServerHello)
                     else Ok((serverHello.value, connection.incoming))
      decreases if serverHello.None? then 1 else 0, |connection.incoming|
    {
      ghost var before, held := connection.incoming, buffer.contents;
      var record :- RecvRecord(connection);
      assert TakeRecord(before).value.0.fragment == record.fragment;
      if IsChangeCipherSpec(record) {
        continue;
      }
      if record.kind == ALERT {
        return Err(Failure.Alert);
      }
      if record.kind != HANDSHAKE {
        return Err(UnexpectedRecord);
      }
      buffer.Extend(record.fragment);
      serverHello :- buffer.PopHandshake();
    }
    if buffer.contents != [] {
      return Err(DataAfterServerHello);
    }
    return Ok(serverHello.value);
  }

  /** `validate_certificate_message`, raising as a capture failure. */
  method ValidateCertificateMessage(loads: Loader, message: bytes) returns (r: Result<()>)
    ensures r == match DecodeCertificateMessage(message)
                 case None => Err(BadCertificate)
                 case Some(entries) => if loads(Chain(entries)) then Ok(()) else Err(BadCertificate)
  {
    hide DecodeCertificateMessage;
    var chain := Parser.ParseCertificateMessage(message);
    if chain.None? || !loads(chain.value) {
      return Err(BadCertificate);
    }
    return Ok(());
  }

  /** The loop that pops the expected messages. */
  method PopMessages(loads: Loader, buffer: Buffer, already: seq<bytes>) returns (r: Result<seq<bytes>>)
    requires |already| <= 3
    modifies buffer
    ensures match PopAll(loads, already, old(buffer.contents))
            case Err(e) => r == Err(e)
            case Ok((captured, rest)) => r == Ok(captured) && buffer.contents == rest
  {
    hide Pop, DecodeCertificateMessage;
    var captured := already;
    while |captured| < 3
      invariant |captured| <= 3
      invariant PopAll(loads, already, old(buffer.contents)) == PopAll(loads, captured, buffer.contents)
      decreases 3 - |captured|
    {
      var message :- buffer.PopHandshake();
      if message.None? {
        break;
      }
      var expected := EXPECTED[|captured|];
      if message.value[0] != expected {
        return Err(UnexpectedMessage);
      }
      if expected == CERTIFICATE {
        var _ :- ValidateCertificateMessage(loads, message.value);
      }
      captured := captured + [message.value];
    }
    return Ok(captured);
  }

  /** One state follows the other by a record. */
  ghost predicate FollowsBy(p: Primitives, keys: Keys, st: Encrypted, next: Encrypted)
  {
    |st.captured| <= 3 && exists record :: EncryptedStep(p, keys, st, record) == Ok(next)
  }

  /** The loop over encrypted records. `heads` are the states at its head: in each of them the buffer holds what
      one pass over the content received leaves, less than one maximal message while the loop goes on. */
  method ReadFlight(p: Primitives, connection: Connection, keys: Keys)
    returns (r: Result<seq<bytes>>, ghost st: Encrypted, ghost heads: seq<Encrypted>)
    requires !connection.broken
    modifies connection
    ensures heads != [] && heads[0] == START && heads[|heads| - 1] == st
    ensures forall k :: 0 <= k < |heads| ==> Consistent(p, keys, heads[k])
    ensures forall k :: 0 <= k < |heads| - 1 ==> FollowsBy(p, keys, heads[k], heads[k + 1])
    ensures connection.broken ==> r == Err(ConnectionFailed)
    ensures !connection.broken && r.Ok? ==>
              EncryptedPhase(p, keys, old(connection.incoming), START) == Ok(st) && r.value == st.captured
    ensures !connection.broken && r.Err? ==>
              EncryptedPhase(p, keys, old(connection.incoming), START) == Err(r.failure)
  {
    hide TakeRecord, PopAll, RecordNonce, Unpad;
    var buffer := new Buffer();
    var captured: seq<bytes> := [];
    var sequence := 0;
    st, heads := START, [START];
    StartConsistent(p, keys);
    while |captured| < 3
      invariant |captured| <= 3 && captured == st.captured && buffer.contents == st.buffer && sequence == st.sequence
      invariant heads != [] && heads[0] == START && heads[|heads| - 1] == st
      invariant forall k :: 0 <= k < |heads| ==> Consistent(p, keys, heads[k])
      invariant forall k :: 0 <= k < |heads| - 1 ==> FollowsBy(p, keys, heads[k], heads[k + 1])
      invariant fresh(buffer) && !connection.broken
      invariant EncryptedPhase(p, keys, old(connection.incoming), START)
                == EncryptedPhase(p, keys, connection.incoming, st)
      decreases |connection.incoming|
    {
      var record :- RecvRecord(connection);
      ghost var next := EncryptedStep(p, keys, st, record);
      if next.Ok? {
        StepConsistent(p, keys, st, record);
        assert FollowsBy(p, keys, st, next.value);
      }
      if IsChangeCipherSpec(record) {
        heads := heads + [st];
        continue;
      }
      if record.kind == ALERT {
        return Err(Failure.Alert), st, heads;
      }
      if record.kind != APPLICATION_DATA {
        return Err(UnexpectedRecord), st, heads;
      }
      var inner :- Decrypt(p, keys, sequence, record);
      sequence := sequence + 1;
      if inner.0 == ALERT {
        return Err(Failure.Alert), st, heads;
      }
      if inner.0 != HANDSHAKE {
        return Err(UnexpectedContent), st, heads;
      }
      buffer.Extend(inner.1);
      if |buffer.contents| > MAX_CAPTURED_HANDSHAKE {
        return Err(CapturedTooLarge), st, heads;
      }
      captured :- PopMessages(p.loads, buffer, captured);
      st := next.value;
      heads := heads + [st];
    }
    return Ok(captured), st, heads;
  }

  /** `capture_tls13_proof` once connected: what it returns or raises is determined by the claim, the fresh
      values and the peer's bytes alone, however they are chunked, unless the socket fails or time runs out. */
  method CaptureProof(p: Primitives, a: Attempt, connection: Connection) returns (r: Result<ProofMessages>)
    requires !connection.broken
    modifies connection
    ensures r == if connection.broken then Err(ConnectionFailed) else Captures(p, a, old(connection.incoming))
  {
    hide BuildClientHello, PlainPhase, EncryptedPhase, KeysFor, DecodeProof, SchemeAllowed,
         ServerHelloParser.ServerHelloOf;
    var clientHello := BuildClientHello(a.domain, a.challenge, a.publicKey, a.sessionId, a.mask);
    if clientHello.None? {
      return Err(InvalidArguments);
    }
    var plaintext := new Buffer();
    var serverHello :- ReadServerHello(connection, plaintext);
    var selected := ServerHelloParser.ParseServerHello(serverHello, a.sessionId, a.mask);
    if selected.None? {
      return Err(BadServerHello);
    }
    var (cipher, share) := selected.value;
    var shared := p.exchange(share);
    if shared.None? {
      return Err(BadPublicKey);
    }
    var keys := KeysFor(p, shared.value, clientHello.value + serverHello, cipher);
    ghost var before := connection.incoming;
    var flight, state, _ := ReadFlight(p, connection, keys);
    if flight.Err? {
      return Err(flight.failure);
    }
    var captured := flight.value;
    assert EncryptedPhase(p, keys, before, START) == Ok(state);
    var result := ProofMessages(clientHello.value, serverHello, captured[0], captured[1], captured[2]);
    var parsed := Parser.ParseProof(p.sha256, EncodedProof(result), a.domain, a.challenge);
    if parsed.None? {
      return Err(ProofRefused);
    }
    if !SchemeAllowed(a.mask, parsed.value.certificateVerifyScheme) {
      return Err(DisallowedScheme);
    }
    return Ok(result);
  }
}
