/** What one TLS capture computes from the bytes the peer sends (tls13.py), and what it guarantees.
    The cryptographic primitives stay uninterpreted; `CaptureRun` is the program over a socket. */
module Capture {
  import opened Bytes
  import opened Wire
  import opened Domain
  import opened Signatures
  import opened Hashes
  import opened Messages
  import opened Protocol
  import opened ProofFormat
  import opened ClientHelloBuilder
  import opened ServerHelloParser
  import opened KeySchedule
  import opened Records
  import opened Reassembly

  const CHANGE_CIPHER_SPEC: byte := 20
  const ALERT: byte := 21
  const HANDSHAKE: byte := 22
  const APPLICATION_DATA: byte := 23
  const MAX_TLS_CIPHERTEXT := 0x4000 + 256

  /** `open` takes the cipher suite, key, nonce, ciphertext and associated data. */
  datatype Primitives = Primitives(
    hmac: Hmac, sha256: Sha256, open: (u16, bytes, bytes, bytes, bytes) -> Option<bytes>,
    exchange: bytes -> Option<bytes>, loads: Loader)

  /** The claim and the fresh values of one attempt. */
  datatype Attempt = Attempt(domain: string, challenge: bytes, mask: Mask, publicKey: bytes, sessionId: bytes)

  predicate Valid(a: Attempt) {
    Buildable(a.domain, a.challenge, a.publicKey, a.sessionId)
  }

  // ---------- records ----------

  datatype Record = Record(kind: byte, header: bytes, fragment: bytes)

  /** `_recv_record`: the record at the front of what the peer sends. */
  function TakeRecord(s: bytes): (r: Result<(Record, bytes)>)
    ensures r.Ok? ==> |r.value.1| < |s| && |r.value.0.fragment| <= MAX_TLS_CIPHERTEXT
                      && s == r.value.0.header + (r.value.0.fragment + r.value.1)
  {
    if |s| < 5 then Err(PeerClosed)
    else
      var version, size := BE(s[1..3]), BE(s[3..5]);
      if version < 0x0300 then Err(InvalidRecordVersion)
      else if size > MAX_TLS_CIPHERTEXT then Err(RecordTooLarge)
      else if |s| - 5 < size then Err(PeerClosed)
      else Ok((Record(s[0], s[..5], s[5..][..size]), s[5..][size..]))
  }

  /** `_record`: how the client frames what it sends. */
  function PrintRecord(kind: byte, body: bytes, version: u16): bytes
    requires |body| < 0x1_0000
  {
    [kind] + ToBE(version, 2) + ToBE(|body|, 2) + body
  }

  /** A record that is sent is read back whole, up to the version and size that the reader refuses. */
  lemma RecordRoundTrip(kind: byte, body: bytes, version: u16, rest: bytes)
    requires |body| < 0x1_0000
    ensures TakeRecord(PrintRecord(kind, body, version) + rest) ==
            if version < 0x0300 then Err(InvalidRecordVersion)
            else if |body| > MAX_TLS_CIPHERTEXT then Err(RecordTooLarge)
            else Ok((Record(kind, PrintRecord(kind, body, version)[..5], body), rest))
  {
    hide BE, ToBE;
    var v, n := ToBE(version, 2), ToBE(|body|, 2);
    var header := [kind] + v + n;
    Assoc(header, body, rest);
    var s := header + (body + rest);
    assert s[..5] == header && s[5..] == body + rest && s[1..3] == v && s[3..5] == n;
    assert (body + rest)[..|body|] == body && (body + rest)[|body|..] == rest;
    assert PrintRecord(kind, body, version)[..5] == header;
  }

  predicate IsChangeCipherSpec(record: Record) {
    record.kind == CHANGE_CIPHER_SPEC && record.fragment == [1]
  }

  // ---------- the plaintext phase ----------

  datatype Plain = Waiting(buffer: bytes) | Got(serverHello: bytes)

  function PlainStep(buffer: bytes, record: Record): Result<Plain> {
    if IsChangeCipherSpec(record) then Ok(Waiting(buffer))
    else if record.kind == ALERT then Err(Failure.Alert)
    else if record.kind != HANDSHAKE then Err(UnexpectedRecord)
    else
      var next :- Pop(buffer + record.fragment);
      if next.None? then Ok(Waiting(buffer + record.fragment))
      else if next.value.1 != [] then Err(DataAfterServerHello)
      else Ok(Got(next.value.0))
  }

  /** The ServerHello and what follows its last record. */
  function PlainPhase(s: bytes, buffer: bytes): Result<(bytes, bytes)>
    decreases |s|
  {
    var (record, rest) :- TakeRecord(s);
    var next :- PlainStep(buffer, record);
    match next
    case Waiting(more) => PlainPhase(rest, more)
    case Got(message) => Ok((message, rest))
  }

  // ---------- the encrypted phase ----------

  datatype Keys = Keys(cipher: u16, key: bytes, iv: Iv)

  /** `nonces` and `consumed` record what has been used and received; the program does not keep them. */
  datatype Encrypted = Encrypted(
    captured: seq<bytes>, buffer: bytes, sequence: nat, nonces: seq<bytes>, consumed: bytes)

  const START := Encrypted([], [], 0, [], [])

  /** `_decrypt_record`: the inner content type and content. */
  function Decrypt(p: Primitives, keys: Keys, sequence: nat, record: Record): Result<(byte, bytes)> {
    match RecordNonce(keys.iv, sequence)
    case None => Err(SequenceOverflow)
    case Some(nonce) =>
      match p.open(keys.cipher, keys.key, nonce, record.fragment, record.header)
      case None => Err(AuthenticationFailed)
      case Some(plaintext) =>
        match Unpad(plaintext) case None => Err(NoContentType) case Some(inner) => Ok(inner)
  }

  function EncryptedStep(p: Primitives, keys: Keys, st: Encrypted, record: Record): (r: Result<Encrypted>)
    requires |st.captured| <= 3
    ensures r.Ok? ==> |r.value.captured| <= 3
  {
    if IsChangeCipherSpec(record) then Ok(st)
    else if record.kind == ALERT then Err(Failure.Alert)
    else if record.kind != APPLICATION_DATA then Err(UnexpectedRecord)
    else
      var (kind, content) :- Decrypt(p, keys, st.sequence, record);
      if kind == ALERT then Err(Failure.Alert)
      else if kind != HANDSHAKE then Err(UnexpectedContent)
      else if |st.buffer + content| > MAX_CAPTURED_HANDSHAKE then Err(CapturedTooLarge)
      else
        var (captured, buffer) :- PopAll(p.loads, st.captured, st.buffer + content);
        Ok(Encrypted(captured, buffer, st.sequence + 1, st.nonces + [RecordNonce(keys.iv, st.sequence).value],
                     st.consumed + content))
  }

  function EncryptedPhase(p: Primitives, keys: Keys, s: bytes, st: Encrypted): (r: Result<Encrypted>)
    requires |st.captured| <= 3
    ensures r.Ok? ==> |r.value.captured| == 3
    decreases |s|
  {
    hide TakeRecord, EncryptedStep;
    if |st.captured| == 3 then Ok(st)
    else
      var (record, rest) :- TakeRecord(s);
      var next :- EncryptedStep(p, keys, st, record);
      EncryptedPhase(p, keys, rest, next)
  }

  // ---------- the whole capture ----------

  datatype ProofMessages = ProofMessages(
    clientHello: bytes, serverHello: bytes, encryptedExtensions: bytes, certificate: bytes, certificateVerify: bytes)

  /** `encoded_proof`. */
  function EncodedProof(m: ProofMessages): bytes {
    [PROOF_VERSION] + (m.clientHello + m.serverHello + m.encryptedExtensions + m.certificate + m.certificateVerify)
  }

  function KeysFor(p: Primitives, shared: bytes, transcript: bytes, cipher: u16): Keys {
    var (key, iv) := ServerHandshakeKeys(p.hmac, p.sha256, shared, transcript,
                                         if cipher == TLS_AES_128_GCM_SHA256 then 16 else 32);
    Keys(cipher, key, iv)
  }

  /** For either suite the keys are those of the schedule, of the suite's key length. */
  lemma KeysForExact(p: Primitives, shared: bytes, transcript: bytes, cipher: u16, keys: Keys)
    requires cipher == 0x1301 || cipher == 0x1303
    ensures keys == KeysFor(p, shared, transcript, cipher) <==>
            && keys.cipher == cipher
            && IsLadder(p.hmac, p.sha256, shared, transcript, if cipher == 0x1301 then 16 else 32, keys.key, keys.iv)
  {
    hide ServerHandshakeKeys, IsLadder;
    ServerHandshakeKeysExact(p.hmac, p.sha256, shared, transcript, if cipher == 0x1301 then 16 else 32,
                             keys.key, keys.iv);
  }

  lemma SelectedCipher(message: bytes, sessionId: bytes, mask: Mask)
    requires ServerHelloOf(message, sessionId, mask).Some?
    ensures ServerHelloOf(message, sessionId, mask).value.cipher in {0x1301, 0x1303}
  {
    hide TakeHandshake, DecodeServerHello, Dict, PrintItems, PrintItem, Distinct, AcceptedSchemes;
    var body := TakeHandshake(message, SERVER_HELLO, MAX_SERVER_HELLO).value.0;
    DecodeServerHelloSound(body, BuiltState(sessionId, mask));
  }

  /** A completed server flight: the five messages, and the keys and state they were captured with. */
  datatype Flight = Flight(messages: ProofMessages, keys: Keys, state: Encrypted)

  /** Everything up to the closing parse. */
  function FlightOf(p: Primitives, a: Attempt, stream: bytes): Result<Flight> {
    hide BuildClientHello, PlainPhase, ServerHelloOf, KeysFor, EncryptedPhase;
    match BuildClientHello(a.domain, a.challenge, a.publicKey, a.sessionId, a.mask)
    case None => Err(InvalidArguments)
    case Some(clientHello) =>
      var (serverHello, rest) :- PlainPhase(stream, []);
      match Selected(ServerHelloOf(serverHello, a.sessionId, a.mask))
      case None => Err(BadServerHello)
      case Some((cipher, share)) =>
        match p.exchange(share)
        case None => Err(BadPublicKey)
        case Some(shared) =>
          var keys := KeysFor(p, shared, clientHello + serverHello, cipher);
          var st :- EncryptedPhase(p, keys, rest, START);
          Ok(Flight(ProofMessages(clientHello, serverHello, st.captured[0], st.captured[1], st.captured[2]), keys, st))
  }

  /** The closing parse and the check of the scheme that was used. */
  function Closing(a: Attempt, m: ProofMessages): Result<ProofMessages> {
    match DecodeProof(EncodedProof(m), a.domain, a.challenge)
    case None => Err(ProofRefused)
    case Some(proof) => if SchemeAllowed(a.mask, proof.verify.scheme) then Ok(m) else Err(DisallowedScheme)
  }

  function Captures(p: Primitives, a: Attempt, stream: bytes): Result<ProofMessages> {
    var flight :- FlightOf(p, a, stream);
    Closing(a, flight.messages)
  }

  // ---------- what every step of the encrypted phase keeps ----------

  /** The captured messages and the leftover are what popping everything received at once gives; the
      sequence number counts the decrypted records, each of which used its own nonce; while the phase is
      unfinished the buffer is short of one message. */
  predicate Consistent(p: Primitives, keys: Keys, st: Encrypted) {
    && |st.captured| <= 3
    && PopAll(p.loads, [], st.consumed) == Ok((st.captured, st.buffer))
    && (|st.captured| < 3 ==> |st.buffer| < MAX_CAPTURED_HANDSHAKE)
    && |st.nonces| == st.sequence <= MAX_SEQUENCE
    && forall k :: 0 <= k < st.sequence ==> RecordNonce(keys.iv, k) == Some(st.nonces[k])
  }

  lemma StartConsistent(p: Primitives, keys: Keys)
    ensures Consistent(p, keys, START)
  {
    assert Pop([]) == Ok(None);
  }

  lemma StepConsistent(p: Primitives, keys: Keys, st: Encrypted, record: Record)
    requires Consistent(p, keys, st) && EncryptedStep(p, keys, st, record).Ok?
    ensures Consistent(p, keys, EncryptedStep(p, keys, st, record).value)
  {
    hide PopAll, RecordNonce, Unpad;
    if !IsChangeCipherSpec(record) {
      var content := Decrypt(p, keys, st.sequence, record).value.1;
      PopAllContinues(p.loads, [], st.consumed, content);
      PopAllConserves(p.loads, st.captured, st.buffer + content);
    }
  }

  lemma {:induction false} EncryptedInvariant(p: Primitives, keys: Keys, s: bytes, st: Encrypted)
    requires Consistent(p, keys, st) && EncryptedPhase(p, keys, s, st).Ok?
    ensures Consistent(p, keys, EncryptedPhase(p, keys, s, st).value)
    decreases |s|
  {
    hide EncryptedStep, PopAll, RecordNonce, TakeRecord;
    if |st.captured| < 3 {
      var (record, rest) := TakeRecord(s).value;
      StepConsistent(p, keys, st, record);
      EncryptedInvariant(p, keys, rest, EncryptedStep(p, keys, st, record).value);
    }
  }

  // ---------- guarantees of a completed flight ----------

  /** What the messages of a flight are known to be before the closing parse. */
  predicate Flown(loads: Loader, a: Attempt, m: ProofMessages) {
    && BuildClientHello(a.domain, a.challenge, a.publicKey, a.sessionId, a.mask) == Some(m.clientHello)
    && ServerHelloOf(m.serverHello, a.sessionId, a.mask).Some?
    && Captured(loads, 0, m.encryptedExtensions) && Captured(loads, 1, m.certificate)
    && Captured(loads, 2, m.certificateVerify)
  }

  /** Whatever chunks, records and padding the peer's bytes came in, a completed flight is what one pass over
      the concatenated handshake content gives, with nothing lost or reordered and no nonce used twice. */
  lemma FlightGuarantees(p: Primitives, a: Attempt, stream: bytes)
    requires FlightOf(p, a, stream).Ok?
    ensures var f := FlightOf(p, a, stream).value;
            && Flown(p.loads, a, f.messages) && Consistent(p, f.keys, f.state)
            && f.state.captured
               == [f.messages.encryptedExtensions, f.messages.certificate, f.messages.certificateVerify]
            && Join(f.state.captured) + f.state.buffer == f.state.consumed
            && forall i, j :: 0 <= i < j < f.state.sequence ==> f.state.nonces[i] != f.state.nonces[j]
  {
    hide BuildClientHello, PlainPhase, ServerHelloOf, KeysFor, EncryptedPhase, Captured, PopAll, RecordNonce;
    var f := FlightOf(p, a, stream).value;
    var clientHello := BuildClientHello(a.domain, a.challenge, a.publicKey, a.sessionId, a.mask).value;
    var (serverHello, rest) := PlainPhase(stream, []).value;
    StartConsistent(p, f.keys);
    EncryptedInvariant(p, f.keys, rest, START);
    PopAllShape(p.loads, [], f.state.consumed);
    PopAllConserves(p.loads, [], f.state.consumed);
    NoncesNeverRepeat(p, f.keys, f.state);
  }

  lemma NoncesNeverRepeat(p: Primitives, keys: Keys, st: Encrypted)
    requires Consistent(p, keys, st)
    ensures forall i, j :: 0 <= i < j < st.sequence ==> st.nonces[i] != st.nonces[j]
  {
    hide PopAll, RecordNonce;
    forall i, j | 0 <= i < j < st.sequence ensures st.nonces[i] != st.nonces[j] {
      if st.nonces[i] == st.nonces[j] {
        NonceInjective(keys.iv, i, j);
      }
    }
  }

  /** Two flights, under any keys and any framing, whose handshake contents are prefixes of one stream of
      content captured the same three messages. */
  lemma FramingIsIrrelevant(p: Primitives, keys: Keys, st: Encrypted, otherKeys: Keys, other: Encrypted, content: bytes)
    requires Consistent(p, keys, st) && |st.captured| == 3 && st.consumed <= content
    requires Consistent(p, otherKeys, other) && |other.captured| == 3 && other.consumed <= content
    ensures st.captured == other.captured
  {
    hide PopAll, RecordNonce;
    CompletedCapturesAgree(p.loads, st.consumed, other.consumed, content);
  }

  // ---------- the plaintext phase ----------

  function RecordBytes(records: seq<Record>): bytes {
    if records == [] then [] else records[0].header + (records[0].fragment + RecordBytes(records[1..]))
  }

  /** The fragments that carry handshake bytes. */
  function HandshakeBytes(records: seq<Record>): bytes {
    if records == [] then []
    else (if IsChangeCipherSpec(records[0]) then [] else records[0].fragment) + HandshakeBytes(records[1..])
  }

  /** The ServerHello is exactly the handshake bytes of the records that were read, for any split into records. */
  lemma {:induction false} PlainReassembles(s: bytes, buffer: bytes) returns (records: seq<Record>)
    requires PlainPhase(s, buffer).Ok?
    ensures var (message, rest) := PlainPhase(s, buffer).value;
            && s == RecordBytes(records) + rest && message == buffer + HandshakeBytes(records)
            && Pop(message) == Ok(Some((message, [])))
    decreases |s|
  {
    hide TakeRecord, Pop;
    var (record, rest) := TakeRecord(s).value;
    var fragment := if IsChangeCipherSpec(record) then [] else record.fragment;
    match PlainStep(buffer, record).value
    case Waiting(more) =>
      AppendNothing(buffer);
      var tail := PlainReassembles(rest, more);
      records := [record] + tail;
      var end := PlainPhase(rest, more).value.1;
      Assoc(record.fragment, RecordBytes(tail), end);
      Assoc(record.header, record.fragment + RecordBytes(tail), end);
      Assoc(buffer, fragment, HandshakeBytes(tail));
    case Got(message) =>
      records := [record];
      AppendNothing(message);
      AppendNothing(record.fragment);
  }

  lemma FirstMessage(message: bytes, content: bytes)
    requires Pop(message) == Ok(Some((message, []))) && message <= content
    ensures Pop(content) == Ok(Some((message, content[|message|..])))
  {
    PopContinues(message, content[|message|..]);
    assert content == message + content[|message|..];
    AppendNothing(content[|message|..]);
  }

  /** Two plaintext phases whose handshake bytes begin one stream read the same ServerHello. */
  lemma PlainFramingIsIrrelevant(s: bytes, t: bytes, content: bytes)
    requires PlainPhase(s, []).Ok? && PlainPhase(s, []).value.0 <= content
    requires PlainPhase(t, []).Ok? && PlainPhase(t, []).value.0 <= content
    ensures PlainPhase(s, []).value.0 == PlainPhase(t, []).value.0
  {
    hide Pop, PlainPhase;
    var _ := PlainReassembles(s, []);
    var _ := PlainReassembles(t, []);
    FirstMessage(PlainPhase(s, []).value.0, content);
    FirstMessage(PlainPhase(t, []).value.0, content);
  }

  // ---------- the closing parse ----------

  predicate EncryptedExtensionsAcceptable(message: bytes)
    requires |message| >= 4
  {
    |message| <= MAX_ENCRYPTED_EXTENSIONS && DecodeEncryptedExtensions(message[4..]).Some?
  }

  predicate CertificateVerifyAcceptable(message: bytes, a: Attempt)
    requires |message| >= 4
  {
    |message| <= MAX_CERTIFICATE_VERIFY && DecodeCertificateVerify(message[4..], BuiltState(a.sessionId, a.mask)).Some?
  }

  /** The frames of a flight, and the sizes that three of them cannot exceed. */
  lemma FlownFrames(loads: Loader, a: Attempt, m: ProofMessages) returns (h: ClientHello, f: Frames)
    requires Flown(loads, a, m)
    ensures Valid(a) && h == BuiltHello(a.domain, a.challenge, a.publicKey, a.sessionId, a.mask)
    ensures |f.client| < 0x100_0000 && |f.server| < 0x100_0000 && |f.encrypted| < 0x100_0000
            && |f.certificate| < 0x100_0000 && |f.verify| < 0x100_0000
    ensures m == ProofMessages(
                  Handshake(CLIENT_HELLO, f.client), Handshake(SERVER_HELLO, f.server),
                  Handshake(ENCRYPTED_EXTENSIONS, f.encrypted), Handshake(CERTIFICATE, f.certificate),
                  Handshake(CERTIFICATE_VERIFY, f.verify))
    ensures |m.clientHello| <= MAX_BUILT_CLIENT_HELLO && |m.serverHello| <= 122
            && |m.certificate| <= MAX_CERTIFICATE_MESSAGE_SIZE
    ensures DecodeClientHello(f.client, a.domain, a.challenge) == Some(h)
    ensures DecodeServerHello(f.server, BuiltState(a.sessionId, a.mask)).Some?
    ensures DecodeCertificate(f.certificate).Some? && loads(Chain(DecodeCertificate(f.certificate).value))
    ensures f.encrypted == m.encryptedExtensions[4..] && f.verify == m.certificateVerify[4..]
  {
    hide IsCanonicalDomain, BuildClientHello, DecodeClientHello, DecodeServerHello, DecodeCertificate, TakeHandshake,
         OpeningBody, WellFormedOpening, BuiltItems, AcceptedSchemes, BE, ToBE, Chain;
    h := BuiltHello(a.domain, a.challenge, a.publicKey, a.sessionId, a.mask);
    BuiltClientHelloParses(a.domain, a.challenge, a.publicKey, a.sessionId, a.mask, h);
    var (server, s1) := TakeHandshake(m.serverHello, SERVER_HELLO, MAX_SERVER_HELLO).value;
    AppendNothing(Handshake(SERVER_HELLO, server));
    ServerHelloLength(server, a.sessionId, a.mask);
    var (certificate, s2) := TakeHandshake(m.certificate, CERTIFICATE, MAX_CERTIFICATE_MESSAGE_SIZE).value;
    AppendNothing(Handshake(CERTIFICATE, certificate));
    f := Frames(OpeningBody(h.opening), server, m.encryptedExtensions[4..], certificate, m.certificateVerify[4..]);
  }

  lemma JoinFive(a: bytes, b: bytes, c: bytes, d: bytes, e: bytes)
    ensures a + b + c + d + e == a + (b + (c + (d + (e + []))))
  {
    AppendNothing(e);
    Assoc(a + b + c, d, e);
    Assoc(a + b, c, d + e);
    Assoc(a, b, c + (d + e));
  }

  /** Splitting a proof built from frames of which only two may be too long. */
  lemma FramesTaken(f: Frames)
    requires |f.client| + 4 <= MAX_CLIENT_HELLO && |f.server| + 4 <= MAX_SERVER_HELLO
    requires |f.certificate| + 4 <= MAX_CERTIFICATE_MESSAGE_SIZE
    requires |f.encrypted| < 0x100_0000 && |f.verify| < 0x100_0000
    ensures TakeFrames(Handshake(CLIENT_HELLO, f.client) + (Handshake(SERVER_HELLO, f.server)
              + (Handshake(ENCRYPTED_EXTENSIONS, f.encrypted) + (Handshake(CERTIFICATE, f.certificate)
              + (Handshake(CERTIFICATE_VERIFY, f.verify) + [])))))
            == if FramesFit(f) then Some((f, [])) else None
  {
    hide TakeHandshake, Handshake;
    var s4 := Handshake(CERTIFICATE_VERIFY, f.verify) + [];
    var s3 := Handshake(CERTIFICATE, f.certificate) + s4;
    var s2 := Handshake(ENCRYPTED_EXTENSIONS, f.encrypted) + s3;
    var s1 := Handshake(SERVER_HELLO, f.server) + s2;
    TakeHandshakePrinted(CLIENT_HELLO, f.client, MAX_CLIENT_HELLO, s1);
    TakeHandshakePrinted(SERVER_HELLO, f.server, MAX_SERVER_HELLO, s2);
    TakeHandshakePrinted(ENCRYPTED_EXTENSIONS, f.encrypted, MAX_ENCRYPTED_EXTENSIONS, s3);
    TakeHandshakePrinted(CERTIFICATE, f.certificate, MAX_CERTIFICATE_MESSAGE_SIZE, s4);
    TakeHandshakePrinted(CERTIFICATE_VERIFY, f.verify, MAX_CERTIFICATE_VERIFY, []);
  }

  /** The most a flight with acceptable messages can need: the total limit of a proof is never the obstacle. */
  const MAX_FLIGHT_PROOF := 1 + MAX_BUILT_CLIENT_HELLO + 122 + MAX_ENCRYPTED_EXTENSIONS
                            + MAX_CERTIFICATE_MESSAGE_SIZE + MAX_CERTIFICATE_VERIFY

  lemma FlightSplits(m: ProofMessages, f: Frames)
    requires |f.client| + 4 <= MAX_BUILT_CLIENT_HELLO && |f.server| + 4 <= 122
    requires |f.certificate| + 4 <= MAX_CERTIFICATE_MESSAGE_SIZE
    requires |f.encrypted| < 0x100_0000 && |f.verify| < 0x100_0000
    requires m == ProofMessages(
                   Handshake(CLIENT_HELLO, f.client), Handshake(SERVER_HELLO, f.server),
                   Handshake(ENCRYPTED_EXTENSIONS, f.encrypted), Handshake(CERTIFICATE, f.certificate),
                   Handshake(CERTIFICATE_VERIFY, f.verify))
    ensures SplitProof(EncodedProof(m)) == if FramesFit(f) then Some(f) else None
    ensures FramesFit(f) ==> |EncodedProof(m)| <= MAX_FLIGHT_PROOF <= MAX_PROOF_SIZE
  {
    hide TakeFrames, TakeUint, ToBE;
    var all := m.clientHello + m.serverHello + m.encryptedExtensions + m.certificate + m.certificateVerify;
    FramesTaken(f);
    JoinFive(m.clientHello, m.serverHello, m.encryptedExtensions, m.certificate, m.certificateVerify);
    SmallConstants();
    TakeUintPrinted(PROOF_VERSION, 1, all);
    hide Handshake;
  }

  /** The closing parse refuses a flight for exactly two reasons: its EncryptedExtensions or its
      CertificateVerify. Nothing else can make it fail, and the scheme check after it never does. */
  lemma ClosingFailsOnlyFor(loads: Loader, a: Attempt, m: ProofMessages)
    requires Flown(loads, a, m)
    ensures Closing(a, m) ==
            if EncryptedExtensionsAcceptable(m.encryptedExtensions)
               && CertificateVerifyAcceptable(m.certificateVerify, a)
            then Ok(m) else Err(ProofRefused)
    ensures Closing(a, m).Ok? ==> |EncodedProof(m)| <= MAX_FLIGHT_PROOF
  {
    hide IsCanonicalDomain, BuildClientHello, DecodeClientHello, DecodeServerHello, DecodeCertificate, AcceptedSchemes,
         DecodeEncryptedExtensions, DecodeCertificateVerify, SplitProof, Captured, ServerHelloOf, BuiltHello,
         EncodedProof, CertificateVerifyBody;
    var h, f := FlownFrames(loads, a, m);
    FlightSplits(m, f);
    BuiltStateOf(a, h);
  }

  /** A captured proof parses, with a scheme of the mask and a chain that loads. */
  lemma CapturedProofParses(p: Primitives, a: Attempt, stream: bytes, m: ProofMessages) returns (proof: Proof)
    requires Captures(p, a, stream) == Ok(m)
    ensures DecodeProof(EncodedProof(m), a.domain, a.challenge) == Some(proof)
    ensures SchemeAllowed(a.mask, proof.verify.scheme) && p.loads(Chain(proof.certificate))
  {
    hide IsCanonicalDomain, BuildClientHello, DecodeClientHello, DecodeServerHello, DecodeCertificate, AcceptedSchemes,
         DecodeEncryptedExtensions, DecodeCertificateVerify, SplitProof, Captured, ServerHelloOf, BuiltHello,
         EncodedProof, PlainPhase, EncryptedPhase, KeysFor, Chain, Consistent, SchemeAllowed;
    FlightGuarantees(p, a, stream);
    proof := DecodeProof(EncodedProof(m), a.domain, a.challenge).value;
    var h, f := FlownFrames(p.loads, a, m);
    FlightSplits(m, f);
  }

  lemma BuiltStateOf(a: Attempt, h: ClientHello)
    requires Valid(a) && h == BuiltHello(a.domain, a.challenge, a.publicKey, a.sessionId, a.mask)
    ensures StateOf(h) == BuiltState(a.sessionId, a.mask)
  {
    hide IsCanonicalDomain, AcceptedSchemes, BuiltItems;
  }

  /** Over every run: a flight that completes is captured unless one of those two messages is unacceptable. */
  lemma CaptureOutcome(p: Primitives, a: Attempt, stream: bytes, f: Flight)
    requires FlightOf(p, a, stream) == Ok(f)
    ensures |f.messages.encryptedExtensions| >= 4 && |f.messages.certificateVerify| >= 4
    ensures Captures(p, a, stream) ==
            if EncryptedExtensionsAcceptable(f.messages.encryptedExtensions)
               && CertificateVerifyAcceptable(f.messages.certificateVerify, a)
            then Ok(f.messages) else Err(ProofRefused)
  {
    hide FlightOf, Closing, ServerHelloOf, BuildClientHello, EncryptedExtensionsAcceptable, CertificateVerifyAcceptable;
    FlightGuarantees(p, a, stream);
    ClosingFailsOnlyFor(p.loads, a, f.messages);
  }
}
