/** Which peers a capture accepts: whatever it accepts was served in records as the protocol frames them, and
    whatever is served so, however it is cut into records and padded, is captured. */
module Honest {
  import opened Bytes
  import opened Domain
  import opened Messages
  import opened Protocol
  import opened ClientHelloBuilder
  import opened ServerHelloParser
  import opened KeySchedule
  import opened Records
  import opened Reassembly
  import opened Capture

  // ---------- records, without reference to a reader ----------

  predicate Framed(r: Record) {
    && |r.header| == 5 && r.header[0] == r.kind && BE(r.header[1..3]) >= 0x0300
    && BE(r.header[3..5]) == |r.fragment| <= MAX_TLS_CIPHERTEXT
  }

  predicate AllFramed(records: seq<Record>) {
    forall i :: 0 <= i < |records| ==> Framed(records[i])
  }

  lemma FramedIsTaken(r: Record, rest: bytes)
    requires Framed(r)
    ensures TakeRecord(r.header + (r.fragment + rest)) == Ok((r, rest))
  {
    hide BE;
    var s := r.header + (r.fragment + rest);
    assert s[..5] == r.header && s[5..] == r.fragment + rest;
    assert s[1..3] == r.header[1..3] && s[3..5] == r.header[3..5];
    assert (r.fragment + rest)[..|r.fragment|] == r.fragment && (r.fragment + rest)[|r.fragment|..] == rest;
  }

  lemma TakenIsFramed(s: bytes)
    requires TakeRecord(s).Ok?
    ensures Framed(TakeRecord(s).value.0)
  {
    hide BE;
    assert s[..5][1..3] == s[1..3] && s[..5][3..5] == s[3..5];
  }

  // ---------- the plaintext phase ----------

  /** Handshake and ChangeCipherSpec records, the last of them with handshake content. */
  predicate PlainRecords(records: seq<Record>) {
    && AllFramed(records) && |records| > 0
    && records[|records| - 1].kind == HANDSHAKE && records[|records| - 1].fragment != []
    && forall i :: 0 <= i < |records| ==> records[i].kind == HANDSHAKE || IsChangeCipherSpec(records[i])
  }

  lemma PopProperPrefix(x: bytes, message: bytes)
    requires x < message && Pop(message) == Ok(Some((message, [])))
    ensures Pop(x) == Ok(None)
  {
    hide BE;
    if |x| >= 4 {
      assert x[1..4] == message[1..4];
    }
  }

  lemma {:induction false} OpeningIsRead(records: seq<Record>, buffer: bytes, message: bytes, rest: bytes)
    requires PlainRecords(records) && buffer + HandshakeBytes(records) == message
    requires Pop(message) == Ok(Some((message, [])))
    ensures PlainPhase(RecordBytes(records) + rest, buffer) == Ok((message, rest))
    decreases |records|
  {
    hide Pop, TakeRecord, Framed;
    var r, tail := records[0], records[1..];
    var fragment := if IsChangeCipherSpec(r) then [] else r.fragment;
    Assoc(buffer, fragment, HandshakeBytes(tail));
    Assoc(r.header, r.fragment + RecordBytes(tail), rest);
    Assoc(r.fragment, RecordBytes(tail), rest);
    FramedIsTaken(r, RecordBytes(tail) + rest);
    AppendNothing(buffer);
    if tail == [] {
      AppendNothing(buffer + fragment);
      assert r == records[|records| - 1] && RecordBytes(tail) + rest == rest;
      assert PlainStep(buffer, r) == Ok(Got(message));
    } else {
      assert PlainRecords(tail);
      OpeningHasContent(tail);
      PopProperPrefix(buffer + fragment, message);
      assert PlainStep(buffer, r) == Ok(Waiting(buffer + fragment));
      OpeningIsRead(tail, buffer + fragment, message, rest);
    }
  }

  lemma {:induction false} OpeningHasContent(records: seq<Record>)
    requires PlainRecords(records)
    ensures HandshakeBytes(records) != []
  {
    if |records| > 1 {
      assert PlainRecords(records[1..]);
      OpeningHasContent(records[1..]);
    }
  }

  lemma {:induction false} ReadWasOpening(s: bytes, buffer: bytes) returns (records: seq<Record>)
    requires PlainPhase(s, buffer).Ok? && Pop(buffer) == Ok(None)
    ensures var (message, rest) := PlainPhase(s, buffer).value;
            PlainRecords(records) && s == RecordBytes(records) + rest && message == buffer + HandshakeBytes(records)
    decreases |s|
  {
    hide TakeRecord, Pop, Framed;
    var (record, rest) := TakeRecord(s).value;
    TakenIsFramed(s);
    AppendNothing(buffer);
    match PlainStep(buffer, record).value
    case Waiting(more) =>
      var fragment := if IsChangeCipherSpec(record) then [] else record.fragment;
      var tail := ReadWasOpening(rest, more);
      records := [record] + tail;
      var end := PlainPhase(rest, more).value.1;
      Assoc(record.fragment, RecordBytes(tail), end);
      Assoc(record.header, record.fragment + RecordBytes(tail), end);
      Assoc(buffer, fragment, HandshakeBytes(tail));
    case Got(message) =>
      records := [record];
      AppendNothing(message);
      AppendNothing(record.fragment);
  }

  // ---------- the encrypted phase ----------

  /** The handshake contents of records that all open, one sequence number after the other; ChangeCipherSpec
      records take none. */
  function Opened(p: Primitives, keys: Keys, records: seq<Record>, sequence: nat): Result<seq<bytes>>
    decreases |records|
  {
    if records == [] then Ok([])
    else if IsChangeCipherSpec(records[0]) then Opened(p, keys, records[1..], sequence)
    else if records[0].kind != APPLICATION_DATA then Err(UnexpectedRecord)
    else
      var (kind, content) :- Decrypt(p, keys, sequence, records[0]);
      if kind != HANDSHAKE then Err(UnexpectedContent)
      else
        var more :- Opened(p, keys, records[1..], sequence + 1);
        Ok([content] + more)
  }

  lemma OpenedFirst(p: Primitives, keys: Keys, records: seq<Record>, sequence: nat, contents: seq<bytes>)
    requires Opened(p, keys, records, sequence) == Ok(contents) && records != [] && !IsChangeCipherSpec(records[0])
    ensures contents != [] && records[0].kind == APPLICATION_DATA
    ensures Decrypt(p, keys, sequence, records[0]) == Ok((HANDSHAKE, contents[0]))
    ensures Opened(p, keys, records[1..], sequence + 1) == Ok(contents[1..])
  {
    hide Decrypt;
    var (_, content) := Decrypt(p, keys, sequence, records[0]).value;
    var more := Opened(p, keys, records[1..], sequence + 1).value;
    assert contents == [content] + more && contents[1..] == more;
  }

  lemma JoinFirst(content: bytes, more: seq<bytes>)
    ensures Join([content] + more) == content + Join(more)
  {
    assert ([content] + more)[1..] == more;
  }

  /** Any amount of padding, under the nonce of the sequence number, opens to the content it hides. */
  lemma PaddingIsIrrelevant(p: Primitives, keys: Keys, sequence: nat, r: Record, content: bytes, padding: nat)
    requires sequence < MAX_SEQUENCE && r.kind == APPLICATION_DATA
    requires p.open(keys.cipher, keys.key, RecordNonce(keys.iv, sequence).value, r.fragment, r.header)
             == Some(InnerPlaintext(HANDSHAKE, content, padding))
    ensures Opened(p, keys, [r], sequence) == Ok([content])
  {
    hide Unpad, InnerPlaintext;
    UnpadRecovers(HANDSHAKE, content, padding);
    assert [r][1..] == [] && [content] + [] == [content];
    assert Opened(p, keys, [], sequence + 1) == Ok([]);
    assert Decrypt(p, keys, sequence, r) == Ok((HANDSHAKE, content));
  }

  lemma PopPrefix(x: bytes, whole: bytes)
    requires x <= whole && Pop(whole).Ok?
    ensures Pop(x).Ok?
  {
    hide BE;
    if |x| >= 4 {
      assert whole[1..4] == x[1..4];
    }
  }

  /** A prefix of content that can be popped never makes popping fail. */
  lemma {:induction false} PopAllPrefix(loads: Loader, captured: seq<bytes>, x: bytes, whole: bytes)
    requires |captured| <= 3 && x <= whole && PopAll(loads, captured, whole).Ok?
    ensures PopAll(loads, captured, x).Ok?
    decreases 3 - |captured|
  {
    hide Pop, CheckMessage;
    if |captured| < 3 {
      PopPrefix(x, whole);
      if Pop(x).value.Some? {
        var (m, rest) := Pop(x).value.value;
        assert whole == x + whole[|x|..];
        PopContinues(x, whole[|x|..]);
        PopAllPrefix(loads, captured + [m], rest, rest + whole[|x|..]);
      }
    }
  }

  /** What one record that opens does, if it fits the buffer and brings nothing unacceptable. */
  lemma OpenedStep(p: Primitives, keys: Keys, st: Encrypted, r: Record, content: bytes)
    requires Consistent(p, keys, st) && r.kind == APPLICATION_DATA
    requires Decrypt(p, keys, st.sequence, r) == Ok((HANDSHAKE, content))
    requires PopAll(p.loads, [], st.consumed + content).Ok?
    ensures |st.buffer| + |content| > MAX_CAPTURED_HANDSHAKE ==> EncryptedStep(p, keys, st, r) == Err(CapturedTooLarge)
    ensures |st.buffer| + |content| <= MAX_CAPTURED_HANDSHAKE ==>
              && EncryptedStep(p, keys, st, r).Ok?
              && EncryptedStep(p, keys, st, r).value.consumed == st.consumed + content
              && EncryptedStep(p, keys, st, r).value.sequence == st.sequence + 1
              && EncryptedStep(p, keys, st, r).value.captured == PopAll(p.loads, [], st.consumed + content).value.0
  {
    hide PopAll, RecordNonce, Unpad;
    PopAllContinues(p.loads, [], st.consumed, content);
  }

  lemma AlreadyComplete(loads: Loader, captured: seq<bytes>, buffer: bytes)
    requires |captured| == 3
    ensures PopAll(loads, captured, buffer) == Ok((captured, buffer))
  {
  }

  /** What is buffered while a message is waited for is shorter than the message. */
  lemma BufferIsShort(p: Primitives, keys: Keys, st: Encrypted, whole: bytes)
    requires Consistent(p, keys, st) && |st.captured| < 3 && st.consumed <= whole
    requires PopAll(p.loads, [], whole).Ok? && |PopAll(p.loads, [], whole).value.0| == 3
    ensures |st.buffer| < |PopAll(p.loads, [], whole).value.0[|st.captured|]|
  {
    hide RecordNonce, CheckMessage, Pop;
    var more := whole[|st.consumed|..];
    assert whole == st.consumed + more;
    PopAllContinues(p.loads, [], st.consumed, more);
    AfterWaiting(p.loads, [], st.consumed);
    var captured := PopAll(p.loads, st.captured, st.buffer + more).value.0;
    var (m, rest) := Pop(st.buffer + more).value.value;
    PopAllConserves(p.loads, st.captured + [m], rest);
    assert captured[|st.captured|] == m;
    if |m| <= |st.buffer| {
      ShortPops(st.buffer, more);
    }
  }

  /** Popping stops early only where no message is complete. */
  lemma {:induction false} AfterWaiting(loads: Loader, captured: seq<bytes>, buffer: bytes)
    requires |captured| <= 3 && PopAll(loads, captured, buffer).Ok? && |PopAll(loads, captured, buffer).value.0| < 3
    ensures Pop(PopAll(loads, captured, buffer).value.1) == Ok(None)
    decreases 3 - |captured|
  {
    hide Pop, CheckMessage;
    if Pop(buffer).value.Some? {
      var (m, rest) := Pop(buffer).value.value;
      AfterWaiting(loads, captured + [m], rest);
    }
  }

  lemma ShortPops(buffer: bytes, more: bytes)
    requires Pop(buffer + more).Ok? && Pop(buffer + more).value.Some?
    requires |Pop(buffer + more).value.value.0| <= |buffer|
    ensures Pop(buffer) != Ok(None)
  {
    hide BE;
    assert (buffer + more)[1..4] == buffer[1..4];
  }

  /** The contents are no longer than `limit`, and each captured message leaves room for so much. */
  predicate Roomy(captured: seq<bytes>, contents: seq<bytes>, limit: nat) {
    && (forall i :: 0 <= i < |contents| ==> |contents[i]| <= limit)
    && forall i :: 0 <= i < |captured| ==> |captured[i]| + limit <= MAX_CAPTURED_HANDSHAKE + 1
  }

  /** Records that open to acceptable content lead to the messages that one pass over the content gives, however
      much there is of it, when no record is too long for the messages. */
  lemma {:induction false} OpenedIsCaptured(p: Primitives, keys: Keys, st: Encrypted, records: seq<Record>,
                                            contents: seq<bytes>, rest: bytes, whole: bytes, limit: nat)
    requires Consistent(p, keys, st) && AllFramed(records) && Opened(p, keys, records, st.sequence) == Ok(contents)
    requires st.consumed + Join(contents) == whole
    requires PopAll(p.loads, [], whole).Ok? && |PopAll(p.loads, [], whole).value.0| == 3
    requires Roomy(PopAll(p.loads, [], whole).value.0, contents, limit)
    ensures EncryptedPhase(p, keys, RecordBytes(records) + rest, st).Ok?
    ensures EncryptedPhase(p, keys, RecordBytes(records) + rest, st).value.captured
            == PopAll(p.loads, [], whole).value.0
    decreases |records|
  {
    hide PopAll, RecordNonce, TakeRecord, EncryptedStep, Decrypt, Framed, Join;
    if |st.captured| == 3 {
      PopAllContinues(p.loads, [], st.consumed, Join(contents));
      AlreadyComplete(p.loads, st.captured, st.buffer + Join(contents));
    } else if records == [] {
      JoinNothing();
      AppendNothing(st.consumed);
      assert false;
    } else {
      var r, tail := records[0], records[1..];
      FirstRecord(records, rest);
      if IsChangeCipherSpec(r) {
        SkipsChangeCipherSpec(p, keys, st, r);
        OpenedIsCaptured(p, keys, st, tail, contents, rest, whole, limit);
      } else {
        OpenedFirst(p, keys, records, st.sequence, contents);
        var first, more := contents[0], contents[1..];
        assert contents == [first] + more;
        JoinFirst(first, more);
        Assoc(st.consumed, first, Join(more));
        PopAllPrefix(p.loads, [], st.consumed + first, whole);
        BufferIsShort(p, keys, st, whole);
        OpenedStep(p, keys, st, r, first);
        StepConsistent(p, keys, st, r);
        OpenedIsCaptured(p, keys, EncryptedStep(p, keys, st, r).value, tail, more, rest, whole, limit);
      }
    }
  }

  lemma JoinNothing()
    ensures Join([]) == []
  {
  }

  lemma FirstRecord(records: seq<Record>, rest: bytes)
    requires AllFramed(records) && records != []
    ensures TakeRecord(RecordBytes(records) + rest) == Ok((records[0], RecordBytes(records[1..]) + rest))
  {
    hide TakeRecord, Framed;
    var r, tail := records[0], records[1..];
    FramedIsTaken(r, RecordBytes(tail) + rest);
    Assoc(r.header, r.fragment + RecordBytes(tail), rest);
    Assoc(r.fragment, RecordBytes(tail), rest);
  }

  lemma SkipsChangeCipherSpec(p: Primitives, keys: Keys, st: Encrypted, r: Record)
    requires |st.captured| <= 3 && IsChangeCipherSpec(r)
    ensures EncryptedStep(p, keys, st, r) == Ok(st)
  {
  }

  /** A step that succeeds opened its record to exactly the content it appended. */
  lemma StepOpened(p: Primitives, keys: Keys, st: Encrypted, r: Record)
    requires |st.captured| <= 3 && EncryptedStep(p, keys, st, r).Ok? && !IsChangeCipherSpec(r)
    ensures r.kind == APPLICATION_DATA && Decrypt(p, keys, st.sequence, r).Ok?
    ensures var (kind, content) := Decrypt(p, keys, st.sequence, r).value;
            kind == HANDSHAKE && EncryptedStep(p, keys, st, r).value.consumed == st.consumed + content
    ensures EncryptedStep(p, keys, st, r).value.sequence == st.sequence + 1
    ensures |st.buffer| + |Decrypt(p, keys, st.sequence, r).value.1| <= MAX_CAPTURED_HANDSHAKE
  {
    hide PopAll, RecordNonce, Unpad;
  }

  /** What the content before the last record leaves waiting, with that record, fits the buffer. */
  predicate LastFits(loads: Loader, before: bytes, last: bytes) {
    && PopAll(loads, [], before).Ok? && |PopAll(loads, [], before).value.0| < 3
    && |PopAll(loads, [], before).value.1| + |last| <= MAX_CAPTURED_HANDSHAKE
  }

  lemma {:induction false} CapturedWasOpened(p: Primitives, keys: Keys, s: bytes, st: Encrypted)
    returns (records: seq<Record>, front: seq<bytes>, last: bytes, rest: bytes)
    requires Consistent(p, keys, st) && |st.captured| < 3 && EncryptedPhase(p, keys, s, st).Ok?
    ensures AllFramed(records) && s == RecordBytes(records) + rest
    ensures Opened(p, keys, records, st.sequence) == Ok(front + [last])
    ensures EncryptedPhase(p, keys, s, st).value.consumed == st.consumed + Join(front + [last])
    ensures LastFits(p.loads, st.consumed + Join(front), last)
    decreases |s|
  {
    hide PopAll, RecordNonce, TakeRecord, EncryptedStep, Decrypt, Framed, Join;
    var (r, after) := TakeRecord(s).value;
    TakenIsFramed(s);
    var next := EncryptedStep(p, keys, st, r).value;
    StepConsistent(p, keys, st, r);
    if IsChangeCipherSpec(r) {
      SkipsChangeCipherSpec(p, keys, st, r);
      var tail;
      tail, front, last, rest := CapturedWasOpened(p, keys, after, st);
      records := [r] + tail;
      OneMoreRecord(r, tail, rest);
      assert records[1..] == tail;
    } else {
      StepOpened(p, keys, st, r);
      var content := Decrypt(p, keys, st.sequence, r).value.1;
      if |next.captured| == 3 {
        records, front, last, rest := [r], [], content, after;
        OneMoreRecord(r, [], rest);
        JoinNothing();
        JoinFirst(content, []);
        AppendNothing(content);
        AppendNothing(st.consumed);
        assert [r][1..] == [] && [content] + [] == [] + [content] == [content];
        assert Opened(p, keys, [], st.sequence + 1) == Ok([]);
      } else {
        var tail, others;
        tail, others, last, rest := CapturedWasOpened(p, keys, after, next);
        records, front := [r] + tail, [content] + others;
        OneMoreRecord(r, tail, rest);
        JoinFirst(content, others);
        JoinFirst(content, others + [last]);
        Assoc(st.consumed, content, Join(others));
        Assoc(st.consumed, content, Join(others + [last]));
        assert records[1..] == tail && front + [last] == [content] + (others + [last]);
      }
    }
  }

  lemma OneMoreRecord(r: Record, tail: seq<Record>, rest: bytes)
    ensures RecordBytes([r] + tail) + rest == r.header + (r.fragment + (RecordBytes(tail) + rest))
  {
    assert ([r] + tail)[1..] == tail;
    Assoc(r.fragment, RecordBytes(tail), rest);
    Assoc(r.header, r.fragment + RecordBytes(tail), rest);
  }

  // ---------- popping a flight ----------

  lemma PopsOne(m: bytes, rest: bytes)
    requires 4 <= |m| <= MAX_CAPTURED_HANDSHAKE && m == Handshake(m[0], m[4..])
    ensures Pop(m + rest) == Ok(Some((m, rest)))
  {
    hide BE, ToBE;
    SmallConstants();
    var body := m[4..];
    assert m == [m[0]] + (ToBE(|body|, 3) + body);
    assert (m + rest)[1..4] == ToBE(|body|, 3);
    assert (m + rest)[..|m|] == m && (m + rest)[|m|..] == rest;
  }

  lemma PopsThree(loads: Loader, a: bytes, b: bytes, c: bytes, rest: bytes)
    requires Reassembly.Captured(loads, 0, a) && Reassembly.Captured(loads, 1, b) && Reassembly.Captured(loads, 2, c)
    ensures PopAll(loads, [], a + (b + (c + rest))) == Ok(([a, b, c], rest))
  {
    hide CheckMessage, Handshake, Pop;
    PopsOne(a, b + (c + rest));
    PopsOne(b, c + rest);
    PopsOne(c, rest);
    assert [] + [a] == [a] && [a] + [b] == [a, b] && [a, b] + [c] == [a, b, c];
    AlreadyComplete(loads, [a, b, c], rest);
    assert PopAll(loads, [a, b], c + rest) == PopAll(loads, [a, b, c], rest);
    assert PopAll(loads, [a], b + (c + rest)) == PopAll(loads, [a, b], c + rest);
  }

  /** How much of the first `n` bytes of a flight belongs to messages that are complete by then. */
  function CompleteBy(m: ProofMessages, n: nat): nat {
    if n < |m.encryptedExtensions| then 0
    else if n < |m.encryptedExtensions| + |m.certificate| then |m.encryptedExtensions|
    else |m.encryptedExtensions| + |m.certificate|
  }

  function FlightSize(m: ProofMessages): nat {
    |m.encryptedExtensions| + |m.certificate| + |m.certificateVerify|
  }

  /** Part of a flight: the complete messages are captured and the rest is waiting. */
  lemma PopsPart(loads: Loader, m: ProofMessages, front: bytes, leftover: bytes)
    requires Reassembly.Captured(loads, 0, m.encryptedExtensions) && Reassembly.Captured(loads, 1, m.certificate)
    requires Reassembly.Captured(loads, 2, m.certificateVerify)
    requires front <= m.encryptedExtensions + (m.certificate + (m.certificateVerify + leftover))
    requires |front| < FlightSize(m)
    ensures PopAll(loads, [], front).Ok? && |PopAll(loads, [], front).value.0| < 3
    ensures |PopAll(loads, [], front).value.1| == |front| - CompleteBy(m, |front|)
  {
    hide CheckMessage, Handshake, Pop;
    var a, b, c := m.encryptedExtensions, m.certificate, m.certificateVerify;
    PopsAlone(a);
    PopsAlone(b);
    PopsAlone(c);
    if |front| < |a| {
      assert front < a;
      PopProperPrefix(front, a);
    } else {
      var f1 := front[|a|..];
      assert front == a + f1;
      assert f1 <= b + (c + leftover);
      PopsOne(a, f1);
      assert [] + [a] == [a];
      if |f1| < |b| {
        assert f1 < b;
        PopProperPrefix(f1, b);
        assert PopAll(loads, [], front) == PopAll(loads, [a], f1) == Ok(([a], f1));
      } else {
        var f2 := f1[|b|..];
        assert f1 == b + f2;
        assert f2 <= c + leftover;
        assert f2 < c;
        PopsOne(b, f2);
        PopProperPrefix(f2, c);
        assert [a] + [b] == [a, b];
        assert PopAll(loads, [a], f1) == PopAll(loads, [a, b], f2) == Ok(([a, b], f2));
      }
    }
  }

  lemma PopsAlone(m: bytes)
    requires 4 <= |m| <= MAX_CAPTURED_HANDSHAKE && m == Handshake(m[0], m[4..])
    ensures Pop(m) == Ok(Some((m, [])))
  {
    hide Pop, Handshake;
    PopsOne(m, []);
    AppendNothing(m);
  }

  // ---------- what a server sends ----------

  /** `front` and `last` are the contents of the encrypted records, `leftover` what follows the last message in
      the last of them, `rest` what follows that record. */
  datatype Service = Service(
    opening: seq<Record>, shared: bytes, keys: Keys, flight: seq<Record>, front: seq<bytes>, last: bytes,
    leftover: bytes, rest: bytes)

  function SentBy(sv: Service): bytes {
    RecordBytes(sv.opening) + (RecordBytes(sv.flight) + sv.rest)
  }

  function FlightContent(m: ProofMessages, sv: Service): bytes {
    m.encryptedExtensions + (m.certificate + (m.certificateVerify + sv.leftover))
  }

  /** The records carry the messages, under the keys of section 7.1 of RFC 8446 for the transcript, and the
      last one completes them. */
  predicate Carries(p: Primitives, a: Attempt, m: ProofMessages, sv: Service) {
    && PlainRecords(sv.opening) && HandshakeBytes(sv.opening) == m.serverHello && AllFramed(sv.flight)
    && Join(sv.front + [sv.last]) == FlightContent(m, sv) && |Join(sv.front)| < FlightSize(m)
    && match Selected(ServerHelloOf(m.serverHello, a.sessionId, a.mask))
       case None => false
       case Some((cipher, share)) =>
         && p.exchange(share) == Some(sv.shared) && sv.keys.cipher == cipher
         && IsLadder(p.hmac, p.sha256, sv.shared, m.clientHello + m.serverHello, if cipher == 0x1301 then 16 else 32,
                     sv.keys.key, sv.keys.iv)
         && Opened(p, sv.keys, sv.flight, 0) == Ok(sv.front + [sv.last])
  }

  /** The content up to and with the record that completes the messages, less the messages that were complete
      before it, is within the limit of the reassembly buffer. */
  predicate FitsBuffer(m: ProofMessages, sv: Service) {
    |Join(sv.front)| - CompleteBy(m, |Join(sv.front)|) + |sv.last| <= MAX_CAPTURED_HANDSHAKE
  }

  /** The messages answer the ClientHello of the attempt. */
  predicate Answers(loads: Loader, a: Attempt, m: ProofMessages) {
    && Flown(loads, a, m)
    && EncryptedExtensionsAcceptable(m.encryptedExtensions) && CertificateVerifyAcceptable(m.certificateVerify, a)
  }

  lemma AnswersAreShort(loads: Loader, a: Attempt, m: ProofMessages)
    requires Answers(loads, a, m)
    ensures Pop(m.serverHello) == Ok(Some((m.serverHello, [])))
    ensures |m.encryptedExtensions| <= MAX_ENCRYPTED_EXTENSIONS && |m.certificate| <= MAX_CERTIFICATE_MESSAGE_SIZE
    ensures |m.certificateVerify| <= MAX_CERTIFICATE_VERIFY
  {
    hide BuildClientHello, ServerHelloOf, DecodeClientHello, DecodeServerHello, DecodeCertificate, Reassembly.Captured,
         DecodeEncryptedExtensions, DecodeCertificateVerify, IsCanonicalDomain, BuiltHello, Handshake, Pop, BuiltState;
    var h, f := FlownFrames(loads, a, m);
    HandshakeParts(SERVER_HELLO, f.server);
    PopsAlone(m.serverHello);
  }

  lemma HandshakeParts(kind: byte, body: bytes)
    requires |body| < 0x100_0000
    ensures |Handshake(kind, body)| == |body| + 4 && Handshake(kind, body)[0] == kind
    ensures Handshake(kind, body)[4..] == body
  {
    hide BE, ToBE;
    SmallConstants();
    assert Handshake(kind, body)[4..] == body;
  }

  /** What the encrypted phase makes of records that carry a flight, from any point of it. */
  lemma {:induction false} FlightOutcome(p: Primitives, keys: Keys, st: Encrypted, records: seq<Record>,
                                         m: ProofMessages, front: seq<bytes>, last: bytes, leftover: bytes, rest: bytes)
    requires Consistent(p, keys, st) && |st.captured| < 3 && AllFramed(records)
    requires Opened(p, keys, records, st.sequence) == Ok(front + [last])
    requires Reassembly.Captured(p.loads, 0, m.encryptedExtensions) && Reassembly.Captured(p.loads, 1, m.certificate)
    requires Reassembly.Captured(p.loads, 2, m.certificateVerify) && FlightSize(m) <= MAX_CAPTURED_HANDSHAKE
    requires st.consumed + Join(front + [last])
             == m.encryptedExtensions + (m.certificate + (m.certificateVerify + leftover))
    requires |st.consumed| + |Join(front)| < FlightSize(m)
    ensures var r, n := EncryptedPhase(p, keys, RecordBytes(records) + rest, st), |st.consumed| + |Join(front)|;
            if n - CompleteBy(m, n) + |last| <= MAX_CAPTURED_HANDSHAKE
            then r.Ok? && r.value.captured == [m.encryptedExtensions, m.certificate, m.certificateVerify]
            else r == Err(CapturedTooLarge)
    decreases |records|
  {
    hide PopAll, RecordNonce, TakeRecord, EncryptedStep, Decrypt, Framed, Join, Reassembly.Captured, CompleteBy;
    var r, tail := records[0], records[1..];
    FirstRecord(records, rest);
    if IsChangeCipherSpec(r) {
      SkipsChangeCipherSpec(p, keys, st, r);
      FlightOutcome(p, keys, st, tail, m, front, last, leftover, rest);
    } else if front == [] {
      assert [] + [last] == [last] + [] == [last];
      OpenedFirst(p, keys, records, st.sequence, [last]);
      JoinFirst(last, []);
      JoinNothing();
      AppendNothing(last);
      PopsThree(p.loads, m.encryptedExtensions, m.certificate, m.certificateVerify, leftover);
      PopsPart(p.loads, m, st.consumed, leftover);
      OpenedStep(p, keys, st, r, last);
    } else {
      var first, others := front[0], front[1..];
      assert front == [first] + others && front + [last] == [first] + (others + [last]);
      OpenedFirst(p, keys, records, st.sequence, front + [last]);
      assert (front + [last])[1..] == others + [last] && (front + [last])[0] == first;
      JoinFirst(first, others);
      JoinFirst(first, others + [last]);
      Assoc(st.consumed, first, Join(others + [last]));
      PopsPart(p.loads, m, st.consumed + first, leftover);
      PopAllConserves(p.loads, [], st.consumed);
      JoinNothing();
      BufferWithin(p, keys, st);
      OpenedStep(p, keys, st, r, first);
      StepConsistent(p, keys, st, r);
      var next := EncryptedStep(p, keys, st, r).value;
      FlightOutcome(p, keys, next, tail, m, others, last, leftover, rest);
    }
  }

  lemma BufferWithin(p: Primitives, keys: Keys, st: Encrypted)
    requires Consistent(p, keys, st)
    ensures |st.buffer| <= |st.consumed|
  {
    hide PopAll, RecordNonce, Join;
    PopAllConserves(p.loads, [], st.consumed);
    JoinNothing();
    assert |Join(st.captured) + st.buffer| == |st.consumed|;
  }

  /** Messages that answer, carried by any records, with ChangeCipherSpec records anywhere among them and
      whatever follows: captured exactly when they fit the buffer, and otherwise refused for that. */
  lemma ServedIsCaptured(p: Primitives, a: Attempt, m: ProofMessages, sv: Service)
    requires Answers(p.loads, a, m) && Carries(p, a, m, sv)
    ensures Captures(p, a, SentBy(sv)) == if FitsBuffer(m, sv) then Ok(m) else Err(CapturedTooLarge)
  {
    hide BuildClientHello, ServerHelloOf, KeysFor, IsLadder, PopAll, PlainPhase, EncryptedPhase, Reassembly.Captured,
         Closing, EncryptedExtensionsAcceptable, CertificateVerifyAcceptable, Pop, Opened, PlainRecords, AllFramed,
         RecordBytes, HandshakeBytes, IsCanonicalDomain, Join, CompleteBy;
    var (cipher, share) := Selected(ServerHelloOf(m.serverHello, a.sessionId, a.mask)).value;
    var keys := sv.keys;
    SelectedCipher(m.serverHello, a.sessionId, a.mask);
    assert cipher == ServerHelloOf(m.serverHello, a.sessionId, a.mask).value.cipher;
    KeysForExact(p, sv.shared, m.clientHello + m.serverHello, cipher, keys);
    AnswersAreShort(p.loads, a, m);
    assert [] + HandshakeBytes(sv.opening) == m.serverHello;
    OpeningIsRead(sv.opening, [], m.serverHello, RecordBytes(sv.flight) + sv.rest);
    StartConsistent(p, keys);
    assert START.consumed + Join(sv.front + [sv.last]) == FlightContent(m, sv);
    FlightOutcome(p, keys, START, sv.flight, m, sv.front, sv.last, sv.leftover, sv.rest);
    ClosingFailsOnlyFor(p.loads, a, m);
  }

  /** With records no longer than section 5.1 of RFC 8446 allows, everything fits. */
  lemma ShortRecordsFit(loads: Loader, a: Attempt, m: ProofMessages, sv: Service)
    requires Answers(loads, a, m) && |Join(sv.front)| < FlightSize(m) && |sv.last| <= 0x4000
    ensures FitsBuffer(m, sv)
  {
    hide Flown, EncryptedExtensionsAcceptable, CertificateVerifyAcceptable, Join;
    AnswersAreShort(loads, a, m);
  }

  /** Whatever is captured was served: the peer's bytes are records that carry messages that answer. */
  lemma CapturedWasServed(p: Primitives, a: Attempt, m: ProofMessages, stream: bytes) returns (sv: Service)
    requires Captures(p, a, stream) == Ok(m)
    ensures Answers(p.loads, a, m) && Carries(p, a, m, sv) && FitsBuffer(m, sv) && SentBy(sv) == stream
  {
    hide BuildClientHello, ServerHelloOf, KeysFor, IsLadder, PopAll, PlainPhase, EncryptedPhase, Reassembly.Captured,
         Closing, EncryptedExtensionsAcceptable, CertificateVerifyAcceptable, Pop, Opened, PlainRecords, AllFramed,
         RecordBytes, HandshakeBytes, IsCanonicalDomain, Join, CompleteBy;
    var f := FlightOf(p, a, stream).value;
    assert Closing(a, f.messages) == Ok(m);
    FlightGuarantees(p, a, stream);
    ClosingFailsOnlyFor(p.loads, a, f.messages);
    var (serverHello, after) := PlainPhase(stream, []).value;
    var (cipher, share) := Selected(ServerHelloOf(serverHello, a.sessionId, a.mask)).value;
    SelectedCipher(serverHello, a.sessionId, a.mask);
    KeysForExact(p, p.exchange(share).value, m.clientHello + m.serverHello, cipher, f.keys);
    NothingPops();
    var opening := ReadWasOpening(stream, []);
    assert [] + HandshakeBytes(opening) == HandshakeBytes(opening);
    StartConsistent(p, f.keys);
    var flight, front, last, rest := CapturedWasOpened(p, f.keys, after, START);
    assert START.consumed + Join(front + [last]) == Join(front + [last]) && START.consumed + Join(front) == Join(front);
    JoinThree(m.encryptedExtensions, m.certificate, m.certificateVerify, f.state.buffer);
    sv := Service(opening, p.exchange(share).value, f.keys, flight, front, last, f.state.buffer, rest);
    LastCompletes(p.loads, m, sv);
  }

  /** A last record that found fewer than three messages and fitted is the one that completes the flight. */
  lemma LastCompletes(loads: Loader, m: ProofMessages, sv: Service)
    requires Reassembly.Captured(loads, 0, m.encryptedExtensions) && Reassembly.Captured(loads, 1, m.certificate)
    requires Reassembly.Captured(loads, 2, m.certificateVerify)
    requires Join(sv.front + [sv.last]) == FlightContent(m, sv) && LastFits(loads, Join(sv.front), sv.last)
    ensures |Join(sv.front)| < FlightSize(m) && FitsBuffer(m, sv)
  {
    hide PopAll, Reassembly.Captured, Join, CompleteBy;
    var front := Join(sv.front);
    JoinSnoc(sv.front, sv.last);
    assert front <= FlightContent(m, sv);
    if |front| >= FlightSize(m) {
      var more := front[FlightSize(m)..];
      PartOfFour(m.encryptedExtensions, m.certificate, m.certificateVerify, sv.leftover, front);
      PopsThree(loads, m.encryptedExtensions, m.certificate, m.certificateVerify, more);
      assert false;
    } else {
      PopsPart(loads, m, front, sv.leftover);
    }
  }

  lemma PartOfFour(a: bytes, b: bytes, c: bytes, d: bytes, x: bytes)
    requires x <= a + (b + (c + d)) && |x| >= |a| + |b| + |c|
    ensures x == a + (b + (c + x[|a| + |b| + |c|..]))
  {
    var y := x[|a| + |b| + |c|..];
    var s := a + (b + (c + d));
    assert s[..|a|] == a && s[|a|..][..|b|] == b && s[|a|..][|b|..][..|c|] == c;
    assert x[..|a|] == a && x[|a|..][..|b|] == b && x[|a|..][|b|..][..|c|] == c;
    assert x[|a|..][|b|..][|c|..] == y;
  }

  /** Exactly which byte streams are captured as which messages. */
  lemma CapturedExactly(p: Primitives, a: Attempt, m: ProofMessages, stream: bytes)
    ensures Captures(p, a, stream) == Ok(m) <==>
            && Answers(p.loads, a, m)
            && exists sv :: Carries(p, a, m, sv) && FitsBuffer(m, sv) && SentBy(sv) == stream
  {
    hide Captures, Answers, Carries, FitsBuffer, SentBy;
    if Captures(p, a, stream) == Ok(m) {
      var sv := CapturedWasServed(p, a, m, stream);
    }
    if sv :| Answers(p.loads, a, m) && Carries(p, a, m, sv) && FitsBuffer(m, sv) && SentBy(sv) == stream {
      ServedIsCaptured(p, a, m, sv);
    }
  }

  lemma NothingPops()
    ensures Pop([]) == Ok(None)
  {
  }

  lemma JoinThree(a: bytes, b: bytes, c: bytes, rest: bytes)
    ensures Join([a, b, c]) + rest == a + (b + (c + rest))
  {
    assert [a, b, c][1..] == [b, c] && [b, c][1..] == [c] && [c][1..] == [];
    assert Join([c]) == c && Join([b, c]) == b + c && Join([a, b, c]) == a + (b + c);
  }
}
