/** The whole proof: the decoder `parse_proof` computes, and what it guarantees. */
module ProofFormat {
  import opened Bytes
  import opened Wire
  import opened Domain
  import opened Messages
  import opened Protocol

  // ---------- the five frames ----------

  /** The bodies of the five messages, in order. */
  datatype Frames = Frames(client: bytes, server: bytes, encrypted: bytes, certificate: bytes, verify: bytes)

  predicate FramesFit(f: Frames) {
    && |f.client| + 4 <= MAX_CLIENT_HELLO
    && |f.server| + 4 <= MAX_SERVER_HELLO
    && |f.encrypted| + 4 <= MAX_ENCRYPTED_EXTENSIONS
    && |f.certificate| + 4 <= MAX_CERTIFICATE_MESSAGE_SIZE
    && |f.verify| + 4 <= MAX_CERTIFICATE_VERIFY
  }

  /** The first four messages, which the work and the transcript hash cover. */
  function WorkMessages(f: Frames): bytes
    requires FramesFit(f)
  {
    Handshake(CLIENT_HELLO, f.client) + (Handshake(SERVER_HELLO, f.server)
      + (Handshake(ENCRYPTED_EXTENSIONS, f.encrypted) + Handshake(CERTIFICATE, f.certificate)))
  }

  /** The five messages, followed by `rest`. */
  function FramesThen(f: Frames, rest: bytes): bytes
    requires FramesFit(f)
  {
    Handshake(CLIENT_HELLO, f.client) + (Handshake(SERVER_HELLO, f.server)
      + (Handshake(ENCRYPTED_EXTENSIONS, f.encrypted) + (Handshake(CERTIFICATE, f.certificate)
      + (Handshake(CERTIFICATE_VERIFY, f.verify) + rest))))
  }

  function PrintFrames(f: Frames): bytes
    requires FramesFit(f)
  {
    ToBE(PROOF_VERSION, 1) + FramesThen(f, [])
  }

  function TakeFrames(s: bytes): Option<(Frames, bytes)> {
    var (client, s1) :- TakeHandshake(s, CLIENT_HELLO, MAX_CLIENT_HELLO);
    var (server, s2) :- TakeHandshake(s1, SERVER_HELLO, MAX_SERVER_HELLO);
    var (encrypted, s3) :- TakeHandshake(s2, ENCRYPTED_EXTENSIONS, MAX_ENCRYPTED_EXTENSIONS);
    var (certificate, s4) :- TakeHandshake(s3, CERTIFICATE, MAX_CERTIFICATE_MESSAGE_SIZE);
    var (verify, s5) :- TakeHandshake(s4, CERTIFICATE_VERIFY, MAX_CERTIFICATE_VERIFY);
    Some((Frames(client, server, encrypted, certificate, verify), s5))
  }

  lemma TakeFramesSound(s: bytes)
    requires TakeFrames(s).Some?
    ensures FramesFit(TakeFrames(s).value.0) && s == FramesThen(TakeFrames(s).value.0, TakeFrames(s).value.1)
  {
    hide TakeHandshake, Handshake;
  }

  lemma TakeFramesPrinted(f: Frames, rest: bytes)
    requires FramesFit(f)
    ensures TakeFrames(FramesThen(f, rest)) == Some((f, rest))
  {
    hide TakeHandshake, Handshake;
    var s4 := Handshake(CERTIFICATE_VERIFY, f.verify) + rest;
    var s3 := Handshake(CERTIFICATE, f.certificate) + s4;
    var s2 := Handshake(ENCRYPTED_EXTENSIONS, f.encrypted) + s3;
    var s1 := Handshake(SERVER_HELLO, f.server) + s2;
    TakeHandshakePrinted(CLIENT_HELLO, f.client, MAX_CLIENT_HELLO, s1);
    TakeHandshakePrinted(SERVER_HELLO, f.server, MAX_SERVER_HELLO, s2);
    TakeHandshakePrinted(ENCRYPTED_EXTENSIONS, f.encrypted, MAX_ENCRYPTED_EXTENSIONS, s3);
    TakeHandshakePrinted(CERTIFICATE, f.certificate, MAX_CERTIFICATE_MESSAGE_SIZE, s4);
    TakeHandshakePrinted(CERTIFICATE_VERIFY, f.verify, MAX_CERTIFICATE_VERIFY, rest);
  }

  lemma FramesThenAppend(f: Frames, a: bytes, b: bytes)
    requires FramesFit(f)
    ensures FramesThen(f, a) + b == FramesThen(f, a + b)
  {
    hide Handshake;
    var s4 := Handshake(CERTIFICATE_VERIFY, f.verify) + a;
    var s3 := Handshake(CERTIFICATE, f.certificate) + s4;
    var s2 := Handshake(ENCRYPTED_EXTENSIONS, f.encrypted) + s3;
    var s1 := Handshake(SERVER_HELLO, f.server) + s2;
    Assoc(Handshake(CERTIFICATE_VERIFY, f.verify), a, b);
    Assoc(Handshake(CERTIFICATE, f.certificate), s4, b);
    Assoc(Handshake(ENCRYPTED_EXTENSIONS, f.encrypted), s3, b);
    Assoc(Handshake(SERVER_HELLO, f.server), s2, b);
    Assoc(Handshake(CLIENT_HELLO, f.client), s1, b);
  }

  lemma FramesThenWork(f: Frames, rest: bytes)
    requires FramesFit(f)
    ensures FramesThen(f, rest) == WorkMessages(f) + (Handshake(CERTIFICATE_VERIFY, f.verify) + rest)
  {
    hide Handshake;
    var tail := Handshake(CERTIFICATE_VERIFY, f.verify) + rest;
    var s3 := Handshake(CERTIFICATE, f.certificate);
    var s2 := Handshake(ENCRYPTED_EXTENSIONS, f.encrypted) + s3;
    var s1 := Handshake(SERVER_HELLO, f.server) + s2;
    Assoc(Handshake(ENCRYPTED_EXTENSIONS, f.encrypted), s3, tail);
    Assoc(Handshake(SERVER_HELLO, f.server), s2, tail);
    Assoc(Handshake(CLIENT_HELLO, f.client), s1, tail);
  }

  // ---------- the proof ----------

  /** Everything that does not depend on the claim being proved. */
  predicate Printable(p: Proof) {
    && WellFormedOpening(p.client.opening)
    && |p.server.sessionId| <= 32 && |PrintItems(p.server.extensions)| < 0x1_0000
    && |PrintItems(p.encrypted)| < 0x1_0000
    && WellFormedEntries(p.certificate) && |PrintEntries(p.certificate)| < 0x100_0000
    && FramesFit(FramesOf(p))
  }

  function FramesOf(p: Proof): Frames
    requires WellFormedOpening(p.client.opening)
    requires |p.server.sessionId| <= 32 && |PrintItems(p.server.extensions)| < 0x1_0000
    requires |PrintItems(p.encrypted)| < 0x1_0000
    requires WellFormedEntries(p.certificate) && |PrintEntries(p.certificate)| < 0x100_0000
  {
    Frames(OpeningBody(p.client.opening), ServerHelloBody(p.server), EncryptedExtensionsBody(p.encrypted),
           CertificateBody(p.certificate), CertificateVerifyBody(p.verify))
  }

  function PrintProof(p: Proof): bytes
    requires Printable(p)
  {
    PrintFrames(FramesOf(p))
  }

  /** The messages are well formed, agree with each other and with the claim, and fit every limit. */
  predicate WellFormedProof(p: Proof, domain: string, challenge: bytes) {
    && IsCanonicalDomain(domain) && |challenge| == 32
    && WellFormedClientHello(p.client, domain, challenge)
    && WellFormedServerHello(p.server, StateOf(p.client))
    && WellFormedEncryptedExtensions(p.encrypted)
    && WellFormedCertificate(p.certificate)
    && WellFormedCertificateVerify(p.verify, StateOf(p.client))
    && FramesFit(FramesOf(p)) && |PrintProof(p)| <= MAX_PROOF_SIZE
  }

  function DecodeFrames(f: Frames, domain: string, challenge: bytes): Option<Proof>
    requires IsCanonicalDomain(domain)
  {
    var client :- DecodeClientHello(f.client, domain, challenge);
    var server :- DecodeServerHello(f.server, StateOf(client));
    var encrypted :- DecodeEncryptedExtensions(f.encrypted);
    var certificate :- DecodeCertificate(f.certificate);
    var verify :- DecodeCertificateVerify(f.verify, StateOf(client));
    Some(Proof(client, server, encrypted, certificate, verify))
  }

  function SplitProof(encoded: bytes): (r: Option<Frames>)
    ensures r.Some? ==> FramesFit(r.value) && encoded == PrintFrames(r.value)
  {
    hide TakeFrames, FramesThen, ToBE;
    if encoded == [] || |encoded| > MAX_PROOF_SIZE then None else
      var (version, s) :- TakeUint(encoded, 1);
      var (frames, rest) :- TakeFrames(s);
      TakeFramesSound(s);
      if version != PROOF_VERSION || rest != [] then None else Some(frames)
  }

  lemma SplitProofPrinted(f: Frames)
    requires FramesFit(f)
    ensures SplitProof(PrintFrames(f)) == if |PrintFrames(f)| <= MAX_PROOF_SIZE then Some(f) else None
  {
    hide TakeFrames, FramesThen, TakeUint;
    TakeUintPrinted(PROOF_VERSION, 1, FramesThen(f, []));
    TakeFramesPrinted(f, []);
  }

  function DecodeProof(encoded: bytes, domain: string, challenge: bytes): Option<Proof> {
    if !IsCanonicalDomain(domain) || |challenge| != 32 then None else
      var frames :- SplitProof(encoded);
      DecodeFrames(frames, domain, challenge)
  }

  /** A Certificate message on its own, as it is checked before CertificateVerify arrives. */
  function DecodeCertificateMessage(message: bytes): Option<seq<CertificateEntry>> {
    var (body, rest) :- TakeHandshake(message, CERTIFICATE, MAX_CERTIFICATE_MESSAGE_SIZE);
    if rest != [] then None else DecodeCertificate(body)
  }

  // ---------- what the decoder accepts ----------

  lemma DecodeFramesSound(f: Frames, domain: string, challenge: bytes)
    requires IsCanonicalDomain(domain) && DecodeFrames(f, domain, challenge).Some?
    ensures var p := DecodeFrames(f, domain, challenge).value;
            && WellFormedClientHello(p.client, domain, challenge)
            && WellFormedServerHello(p.server, StateOf(p.client))
            && WellFormedEncryptedExtensions(p.encrypted)
            && WellFormedCertificate(p.certificate)
            && WellFormedCertificateVerify(p.verify, StateOf(p.client))
            && FramesOf(p) == f
  {
    hide DecodeClientHello, DecodeServerHello, DecodeEncryptedExtensions, DecodeCertificate, DecodeCertificateVerify,
         OpeningBody, ServerHelloBody, EncryptedExtensionsBody, CertificateBody, CertificateVerifyBody,
         IsCanonicalDomain, WellFormedCertificateVerify, Dict, Vector, WellFormedShares, PrintItems, PrintU16s;
    var p := DecodeFrames(f, domain, challenge).value;
    DecodeClientHelloSound(f.client, domain, challenge);
    DecodeServerHelloSound(f.server, StateOf(p.client));
    DecodeCertificateSound(f.certificate);
  }

  lemma DecodeFramesPrinted(p: Proof, domain: string, challenge: bytes)
    requires WellFormedProof(p, domain, challenge)
    ensures DecodeFrames(FramesOf(p), domain, challenge) == Some(p)
  {
    hide DecodeClientHello, DecodeServerHello, DecodeEncryptedExtensions, DecodeCertificate, DecodeCertificateVerify,
         OpeningBody, ServerHelloBody, EncryptedExtensionsBody, CertificateBody, CertificateVerifyBody, PrintFrames,
         IsCanonicalDomain, WellFormedCertificateVerify, Dict, Vector, WellFormedShares, PrintItems, PrintU16s;
    DecodeClientHelloPrinted(p.client, domain, challenge);
    DecodeServerHelloPrinted(p.server, StateOf(p.client));
    DecodeEncryptedExtensionsPrinted(p.encrypted);
    DecodeCertificatePrinted(p.certificate);
    DecodeCertificateVerifyPrinted(p.verify, StateOf(p.client));
  }

  /** `parse_proof` accepts exactly the printed forms of well-formed proofs, and recovers what was printed. */
  lemma AcceptsExactlyPrintedProofs(encoded: bytes, domain: string, challenge: bytes, p: Proof)
    ensures DecodeProof(encoded, domain, challenge) == Some(p)
            <==> WellFormedProof(p, domain, challenge) && encoded == PrintProof(p)
  {
    hide DecodeFrames, PrintFrames, IsCanonicalDomain, WellFormedCertificateVerify, SplitProof, Dict, Distinct,
         Vector, PrintItems, PrintU16s, PrintEntries, ServerName, WellFormedShares, ValidKeyShare;
    if DecodeProof(encoded, domain, challenge) == Some(p) {
      var f := SplitProof(encoded).value;
      DecodeFramesSound(f, domain, challenge);
      SplitProofPrinted(f);
    }
    if WellFormedProof(p, domain, challenge) && encoded == PrintProof(p) {
      SplitProofPrinted(FramesOf(p));
      DecodeFramesPrinted(p, domain, challenge);
    }
  }

  // ---------- consequences ----------

  /** The preimage of the work and transcript hashes determines the four messages. */
  lemma WorkMessagesInjective(f: Frames, g: Frames)
    requires FramesFit(f) && FramesFit(g) && WorkMessages(f) == WorkMessages(g)
    ensures f.(verify := g.verify) == g
  {
    hide FramesThen, TakeFrames, Handshake;
    var swapped := f.(verify := g.verify);
    FramesThenWork(swapped, []);
    FramesThenWork(g, []);
    TakeFramesPrinted(swapped, []);
    TakeFramesPrinted(g, []);
  }

  /** A ClientHello names the one domain and challenge it can be accepted for. */
  lemma ClientHelloBindsClaim(body: bytes, domain: string, challenge: bytes, other: string, otherChallenge: bytes)
    requires IsCanonicalDomain(domain) && IsCanonicalDomain(other)
    requires DecodeClientHello(body, domain, challenge).Some? && DecodeClientHello(body, other, otherChallenge).Some?
    ensures domain == other && challenge == otherChallenge
  {
    hide DecodeOpening, DecodeCodes, DecodeShares, IsCanonicalDomain, Encoded, Dict, ServerName;
    var host, otherHost := Encoded(domain), Encoded(other);
    assert ServerName(host) == ServerName(otherHost);
    ServerNameInjective(host, otherHost);
    EncodedInjective(domain, other);
  }

  lemma ServerNameInjective(a: bytes, b: bytes)
    requires |a| <= MAX_DOMAIN && |b| <= MAX_DOMAIN && ServerName(a) == ServerName(b)
    ensures a == b
  {
    hide ToBE;
    assert ServerName(a)[5..] == a && ServerName(b)[5..] == b;
  }

  lemma FramesDecodeAlike(f: Frames, domain: string, challenge: bytes, p: Proof,
                          g: Frames, other: string, otherChallenge: bytes, q: Proof)
    requires f.(verify := g.verify) == g && IsCanonicalDomain(domain) && IsCanonicalDomain(other)
    requires DecodeFrames(f, domain, challenge) == Some(p) && DecodeFrames(g, other, otherChallenge) == Some(q)
    ensures p.(verify := q.verify) == q && domain == other && challenge == otherChallenge
  {
    hide DecodeClientHello, DecodeServerHello, DecodeEncryptedExtensions, DecodeCertificate, DecodeCertificateVerify;
    ClientHelloBindsClaim(f.client, domain, challenge, other, otherChallenge);
  }

  /** Two accepted proofs over the same work preimage differ at most in CertificateVerify: the four
      messages, everything decoded from them, the domain and the challenge are the same. */
  lemma WorkPreimageUnambiguous(a: bytes, domain: string, challenge: bytes, p: Proof,
                                b: bytes, other: string, otherChallenge: bytes, q: Proof)
    requires DecodeProof(a, domain, challenge) == Some(p) && DecodeProof(b, other, otherChallenge) == Some(q)
    requires WorkMessages(SplitProof(a).value) == WorkMessages(SplitProof(b).value)
    ensures var f, g := SplitProof(a).value, SplitProof(b).value;
            f.client == g.client && f.server == g.server && f.encrypted == g.encrypted && f.certificate == g.certificate
    ensures p.(verify := q.verify) == q && domain == other && challenge == otherChallenge
  {
    hide DecodeFrames, SplitProof, WorkMessages, IsCanonicalDomain;
    var f, g := SplitProof(a).value, SplitProof(b).value;
    WorkMessagesInjective(f, g);
    FramesDecodeAlike(f, domain, challenge, p, g, other, otherChallenge, q);
  }

  /** No accepted proof is a proper prefix of another, whatever claims they are for. */
  lemma AcceptedProofsPrefixFree(a: bytes, domain: string, challenge: bytes, p: Proof,
                                 b: bytes, other: string, otherChallenge: bytes, q: Proof)
    requires DecodeProof(a, domain, challenge) == Some(p) && DecodeProof(b, other, otherChallenge) == Some(q)
    requires a <= b
    ensures a == b && p == q && domain == other && challenge == otherChallenge
  {
    hide DecodeFrames, SplitProof, FramesThen, TakeFrames, IsCanonicalDomain, ToBE;
    var f, g, rest := SplitProof(a).value, SplitProof(b).value, b[|a|..];
    var version := ToBE(PROOF_VERSION, 1);
    assert b == a + rest;
    Assoc(version, FramesThen(f, []), rest);
    FramesThenAppend(f, [], rest);
    AppendNothing(rest);
    assert version + FramesThen(f, rest) == version + FramesThen(g, []);
    assert FramesThen(f, rest) == b[1..] == FramesThen(g, []);
    TakeFramesPrinted(f, rest);
    TakeFramesPrinted(g, []);
    FramesDecodeAlike(f, domain, challenge, p, g, other, otherChallenge, q);
  }

  /** In an accepted proof any other CertificateVerify that is well formed for the same ClientHello may
      stand: the proof stays accepted, with the same other messages and work preimage, exactly when it
      still fits the total limit. */
  lemma CertificateVerifySwaps(a: bytes, domain: string, challenge: bytes, f: Frames, p: Proof,
                               body: bytes, verify: CertificateVerify)
    requires DecodeProof(a, domain, challenge) == Some(p) && SplitProof(a) == Some(f)
    requires DecodeCertificateVerify(body, StateOf(p.client)) == Some(verify) && |body| + 4 <= MAX_CERTIFICATE_VERIFY
    ensures var g := f.(verify := body);
            && FramesFit(g) && WorkMessages(g) == WorkMessages(f)
            && DecodeProof(PrintFrames(g), domain, challenge) ==
               if |PrintFrames(g)| <= MAX_PROOF_SIZE then Some(p.(verify := verify)) else None
  {
    hide SplitProof, IsCanonicalDomain, DecodeClientHello, DecodeServerHello, DecodeEncryptedExtensions,
         DecodeCertificate, DecodeCertificateVerify, PrintFrames, Handshake;
    SplitProofPrinted(f.(verify := body));
  }
}
