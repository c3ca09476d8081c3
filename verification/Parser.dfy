/** protocol.py as it runs: every parser threads one `Reader`, whose position it advances. */
module Parser {
  import opened Bytes
  import opened Wire
  import opened Domain
  import opened Messages
  import opened Protocol
  import opened ProofFormat
  import opened Hashes

  datatype ParsedProof = ParsedProof(
    clientHello: bytes, serverHello: bytes, encryptedExtensions: bytes, certificate: bytes, certificateVerify: bytes,
    certificateChain: seq<bytes>, certificateVerifyScheme: u16, certificateVerifySignature: bytes,
    transcriptHash: Digest, connectionWorkHash: Digest)

  method ReadHandshake(reader: Reader, expected: byte, maximum: nat) returns (r: Option<(bytes, bytes)>)
    requires reader.Valid()
    modifies reader
    ensures reader.Valid()
    ensures match TakeHandshake(old(reader.Rest()), expected, maximum)
            case None => r.None?
            case Some((body, rest)) => r == Some((Handshake(expected, body), body)) && reader.Rest() == rest
  {
    hide TakeUint, Take, BE, ToBE, Vector;
    ghost var before := reader.Rest();
    var start := reader.position;
    var kind :- reader.Uint(1);
    var size :- reader.Uint(3);
    if kind != expected {
      return None;
    }
    if size + 4 > maximum {
      return None;
    }
    var body :- reader.Read(size);
    assert TakeHandshake(before, expected, maximum) == Some((body, reader.Rest()));
    SliceOfPrefix(reader.data, start, Handshake(expected, body), reader.Rest());
    return Some((reader.data[start..reader.position], body));
  }

  lemma SliceOfPrefix(data: bytes, start: nat, part: bytes, rest: bytes)
    requires start <= |data| && data[start..] == part + rest
    ensures data[start..start + |part|] == part
  {
    assert data[start..start + |part|] == data[start..][..|part|];
  }

  /** `None` where the source raises. */
  method ParseSni(encoded: bytes, expectedDomain: string) returns (r: Option<()>)
    requires IsCanonicalDomain(expectedDomain)
    ensures r.Some? <==> encoded == ServerName(Encoded(expectedDomain))
  {
    hide Reader.Rest, TakeUint, BE, ToBE, ServerName, IsCanonicalDomain, Encoded;
    var reader := new Reader(encoded);
    DecodeServerNameExact(encoded, Encoded(expectedDomain));
    var size :- reader.Uint(2);
    if size != |reader.data| - reader.position {
      return None;
    }
    TakeAll(reader.Rest());
    var kind :- reader.Uint(1);
    var nameSize :- reader.Uint(2);
    var name :- reader.Read(nameSize);
    if kind != 0 || !reader.Empty() {
      return None;
    }
    if name != Encoded(expectedDomain) {
      return None;
    }
    return Some(());
  }

  /** The legacy version, the random and the session id, and where the source raises over them. */
  method ReadHelloStart(reader: Reader) returns (r: Option<(bytes, bytes)>)
    requires reader.Valid()
    modifies reader
    ensures reader.Valid()
    ensures match TakeHelloStart(old(reader.Rest()))
            case None => r.None?
            case Some((random, session, rest)) => r == Some((random, session)) && reader.Rest() == rest
  {
    hide Reader.Rest, TakeUint, Take, BE, ToBE, Vector;
    var version :- reader.Uint(2);
    if version != TLS_1_2 {
      return None;
    }
    var random :- reader.Read(32);
    var sessionSize :- reader.Uint(1);
    if sessionSize > 32 {
      return None;
    }
    var session :- reader.Read(sessionSize);
    return Some((random, session));
  }

  /** The fixed part of a ClientHello and its extension dictionary. */
  method ReadOpening(body: bytes, challenge: bytes)
    returns (r: Option<(bytes, seq<u16>, map<u16, bytes>)>)
    ensures r == match DecodeOpening(body)
                 case None => None
                 case Some(o) => if o.random != challenge then None
                                 else Some((o.sessionId, o.ciphers, Dict(o.extensions)))
  {
    hide Reader.Rest, TakeUint, Take, BE, ToBE, Vector, TakeHelloStart, DecodeExtensions, DecodeU16s, Dict,
         Distinct, HelloStart, OpeningBody, WellFormedOpening;
    var reader := new Reader(body);
    var start :- ReadHelloStart(reader);
    var (random, session) := start;
    if random != challenge {
      return None;
    }
    var cipherSize :- reader.Uint(2);
    if cipherSize < 2 || cipherSize % 2 != 0 {
      return None;
    }
    var encodedCiphers :- reader.Read(cipherSize);
    var ciphers := DecodeU16s(encodedCiphers);
    var compressionSize :- reader.Uint(1);
    var compression :- reader.Read(compressionSize);
    if compressionSize != 1 || compression != [0] {
      return None;
    }
    var extensions :- ReadExtensions(reader);
    return Some((session, ciphers, extensions));
  }

  /** The `supported_versions` (width 1) and `signature_algorithms` (width 2) lists. */
  method ReadCodes(encoded: bytes, width: nat) returns (r: Option<seq<u16>>)
    ensures r == DecodeCodes(encoded, width)
  {
    hide Reader.Rest, TakeUint, Take, BE, ToBE, Vector, DecodeU16s;
    var reader := new Reader(encoded);
    var size :- reader.Uint(width);
    if size < 2 || size % 2 != 0 {
      return None;
    }
    var codes :- reader.Read(size);
    if !reader.Empty() {
      return None;
    }
    return Some(DecodeU16s(codes));
  }

  /** The groups of a list of key shares, if it is one. */
  function GroupsOf(items: Option<seq<Item>>): Option<seq<u16>> {
    if items.Some? && WellFormedShares(items.value) then Some(Kinds(items.value)) else None
  }

  lemma ShareAccepted(done: seq<Item>, share: Item)
    requires done == [] || WellFormedShares(done)
    requires ValidKeyShare(share.kind, share.data) && share.kind !in Kinds(done)
    ensures WellFormedShares(done + [share]) && Kinds(done + [share]) == Kinds(done) + [share.kind]
  {
    forall i | 0 <= i < |done| ensures done[i].kind != share.kind {
      assert Kinds(done)[i] == done[i].kind;
    }
  }

  lemma ShareRefused(done: seq<Item>, share: Item, rest: Option<seq<Item>>)
    requires |share.data| == 0 || !ValidKeyShare(share.kind, share.data) || share.kind in Kinds(done)
    ensures GroupsOf(After(done + [share], rest)) == None
  {
    if rest.Some? {
      var all := done + [share] + rest.value;
      assert all[|done|] == share;
      if share.kind in Kinds(done) {
        var i :| 0 <= i < |done| && Kinds(done)[i] == share.kind;
        assert all[i].kind == share.kind;
      }
    }
  }

  /** The loop over the key shares; refuses an invalid share and a repeated group. */
  method ReadShareList(encoded: Reader) returns (r: Option<seq<u16>>)
    requires encoded.Valid() && !encoded.Empty()
    modifies encoded
    ensures r == GroupsOf(DecodeItems(old(encoded.Rest())))
  {
    hide ValidKeyShare, Distinct;
    ghost var whole := DecodeItems(encoded.Rest());
    ghost var done: seq<Item> := [];
    var groups: seq<u16> := [];
    AfterNothing(whole);
    while !encoded.Empty()
      invariant encoded.Valid()
      invariant groups == Kinds(done) && if done == [] then !encoded.Empty() else WellFormedShares(done)
      invariant whole == After(done, DecodeItems(encoded.Rest()))
      decreases |encoded.Rest()|
    {
      var share :- ReadItem(encoded);
      AfterOne(done, share, DecodeItems(encoded.Rest()));
      if |share.data| == 0 || !ValidKeyShare(share.kind, share.data) || share.kind in groups {
        ShareRefused(done, share, DecodeItems(encoded.Rest()));
        return None;
      }
      ShareAccepted(done, share);
      groups := groups + [share.kind];
      done := done + [share];
    }
    AfterAll(done);
    return Some(groups);
  }

  method ReadShares(encoded: bytes) returns (r: Option<seq<u16>>)
    ensures r == match DecodeShares(encoded) case None => None case Some(shares) => Some(Kinds(shares))
  {
    hide Reader.Rest, TakeUint, BE, ToBE, Vector, DecodeItems, Distinct;
    var reader := new Reader(encoded);
    var size :- reader.Uint(2);
    if size == 0 {
      return None;
    }
    var block :- reader.Read(size);
    var shares := new Reader(block);
    if !reader.Empty() {
      return None;
    }
    r := ReadShareList(shares);
  }

  method ParseClientHello(body: bytes, domain: string, challenge: bytes) returns (r: Option<ClientState>)
    requires IsCanonicalDomain(domain)
    ensures r == match DecodeClientHello(body, domain, challenge) case None => None case Some(h) => Some(StateOf(h))
  {
    hide DecodeOpening, DecodeCodes, DecodeShares, Dict, ServerName, IsCanonicalDomain, Encoded, OpeningBody,
         WellFormedOpening, WellFormedShares, PrintItems, PrintU16s, Vector;
    var opening :- ReadOpening(body, challenge);
    var (session, ciphers, extensions) := opening;
    if !(REQUIRED <= extensions.Keys) {
      return None;
    }
    var sni :- ParseSni(extensions[EXT_SERVER_NAME], domain);
    if !(FORBIDDEN !! extensions.Keys) {
      return None;
    }
    var versions :- ReadCodes(extensions[EXT_SUPPORTED_VERSIONS], 1);
    if TLS_1_3 !in versions {
      return None;
    }
    var schemes :- ReadCodes(extensions[EXT_SIGNATURE_ALGORITHMS], 2);
    var groups :- ReadShares(extensions[EXT_KEY_SHARE]);
    return Some(ClientState(ciphers, schemes, groups, session));
  }

  /** The checks on a ServerHello's extension dictionary. */
  method ReadServerShare(extensions: map<u16, bytes>, client: ClientState) returns (r: Option<()>)
    ensures r.Some? <==> DecodeServerShare(extensions, client).Some?
  {
    hide Reader.Rest, TakeUint, Take, BE, ToBE, Vector;
    if extensions.Keys != {EXT_SUPPORTED_VERSIONS, EXT_KEY_SHARE} {
      return None;
    }
    if extensions[EXT_SUPPORTED_VERSIONS] != ToBE(TLS_1_3, 2) {
      return None;
    }
    var keyShare := new Reader(extensions[EXT_KEY_SHARE]);
    var group :- keyShare.Uint(2);
    var exchangeSize :- keyShare.Uint(2);
    var exchange :- keyShare.Read(exchangeSize);
    if exchangeSize == 0 || !keyShare.Empty() || !ValidKeyShare(group, exchange) || group !in client.keyShareGroups {
      return None;
    }
    return Some(());
  }

  method ParseServerHello(body: bytes, client: ClientState) returns (r: Option<()>)
    ensures r.Some? <==> DecodeServerHello(body, client).Some?
  {
    hide Reader.Rest, TakeUint, Take, BE, ToBE, Vector, TakeHelloStart, DecodeExtensions, DecodeServerShare, Dict,
         Distinct, HelloStart;
    var reader := new Reader(body);
    var start :- ReadHelloStart(reader);
    var (random, session) := start;
    if random == HELLO_RETRY_REQUEST_RANDOM || session != client.legacySessionId {
      return None;
    }
    var cipher :- reader.Uint(2);
    if cipher !in CIPHERS || cipher !in client.cipherSuites {
      return None;
    }
    var compression :- reader.Uint(1);
    if compression != 0 {
      return None;
    }
    var extensions :- ReadExtensions(reader);
    var share :- ReadServerShare(extensions, client);
    return Some(());
  }

  method ParseEncryptedExtensions(body: bytes) returns (r: Option<()>)
    ensures r.Some? <==> DecodeEncryptedExtensions(body).Some?
  {
    hide Reader.Rest, DecodeExtensions, Dict, Distinct;
    var reader := new Reader(body);
    var extensions :- ReadExtensions(reader);
    if EXT_EARLY_DATA in extensions {
      return None;
    }
    return Some(());
  }

  // ---------- Certificate ----------

  /** The certificates alone, or `None`. */
  function ChainOf(entries: Option<seq<CertificateEntry>>): Option<seq<bytes>> {
    match entries
    case None => None
    case Some(list) => Some(Chain(list))
  }

  /** What the loop returns that has read the certificates `done`. */
  function ChainAfter(done: seq<bytes>, entries: Option<seq<CertificateEntry>>): Option<seq<bytes>> {
    match entries
    case None => None
    case Some(list) => Some(done + Chain(list))
  }

  lemma ChainAfterEntry(done: seq<bytes>, s: bytes, room: nat)
    requires s != [] && TakeEntry(s).Some? && room > 0
    ensures var (entry, rest) := TakeEntry(s).value;
            ChainAfter(done, DecodeEntries(s, room))
            == ChainAfter(done + [entry.certificate], DecodeEntries(rest, room - 1))
  {
    hide TakeEntry, PrintEntry, PrintEntries;
    var (entry, rest) := TakeEntry(s).value;
    var tail := DecodeEntries(rest, room - 1);
    if tail.Some? {
      assert Chain([entry] + tail.value) == [entry.certificate] + Chain(tail.value);
      Assoc(done, [entry.certificate], Chain(tail.value));
    }
  }

  method ReadEntry(reader: Reader) returns (r: Option<bytes>)
    requires reader.Valid()
    modifies reader
    ensures reader.Valid()
    ensures match TakeEntry(old(reader.Rest()))
            case None => r.None?
            case Some((entry, rest)) => r == Some(entry.certificate) && reader.Rest() == rest
                                        && |rest| < |old(reader.Rest())|
  {
    hide Reader.Rest, TakeUint, Take, BE, ToBE, Vector;
    var size :- reader.Uint(3);
    if !(1 <= size <= MAX_CERTIFICATE_SIZE) {
      return None;
    }
    var certificate :- reader.Read(size);
    var extensionSize :- reader.Uint(2);
    var extensions :- reader.Read(extensionSize);
    return Some(certificate);
  }

  method ReadEntries(reader: Reader) returns (r: Option<seq<bytes>>)
    requires reader.Valid()
    modifies reader
    ensures r == ChainOf(DecodeEntries(old(reader.Rest()), MAX_CERTIFICATES))
  {
    hide Reader.Rest, TakeEntry, WellFormedEntries, PrintEntries;
    ghost var whole := DecodeEntries(reader.Rest(), MAX_CERTIFICATES);
    var result: seq<bytes> := [];
    assert whole.Some? ==> [] + Chain(whole.value) == Chain(whole.value);
    while !reader.Empty()
      invariant reader.Valid() && |result| <= MAX_CERTIFICATES
      invariant ChainOf(whole) == ChainAfter(result, DecodeEntries(reader.Rest(), MAX_CERTIFICATES - |result|))
      decreases |reader.Rest()|
    {
      ghost var before := reader.Rest();
      var certificate :- ReadEntry(reader);
      if |result| < MAX_CERTIFICATES {
        ChainAfterEntry(result, before, MAX_CERTIFICATES - |result|);
      }
      result := result + [certificate];
      if |result| > MAX_CERTIFICATES {
        return None;
      }
    }
    assert result + Chain([]) == result;
    return Some(result);
  }

  method ParseCertificate(body: bytes) returns (r: Option<seq<bytes>>)
    ensures r == ChainOf(DecodeCertificate(body))
  {
    hide Reader.Rest, TakeUint, BE, ToBE, Vector, DecodeEntries;
    var reader := new Reader(body);
    var contextSize :- reader.Uint(1);
    var context :- reader.Read(contextSize);
    if context != [] {
      return None;
    }
    var listSize :- reader.Uint(3);
    if listSize == 0 || listSize != |reader.data| - reader.position {
      return None;
    }
    TakeAll(reader.Rest());
    var list := reader.Read(listSize);  // all that is left, so never truncated
    var certificates := new Reader(list.value);
    r := ReadEntries(certificates);
  }

  method ParseCertificateMessage(message: bytes) returns (r: Option<seq<bytes>>)
    ensures r == ChainOf(DecodeCertificateMessage(message))
  {
    hide Reader.Rest, TakeHandshake, Handshake, DecodeCertificate;
    var reader := new Reader(message);
    var handshake :- ReadHandshake(reader, CERTIFICATE, MAX_CERTIFICATE_MESSAGE_SIZE);
    if !reader.Empty() {
      return None;
    }
    r := ParseCertificate(handshake.1);
  }

  method ParseCertificateVerify(body: bytes, client: ClientState) returns (r: Option<(u16, bytes)>)
    ensures r == match DecodeCertificateVerify(body, client)
                 case None => None
                 case Some(v) => Some((v.scheme, v.signature))
  {
    hide Reader.Rest, TakeUint, Take, BE, ToBE, Vector;
    var reader := new Reader(body);
    var scheme :- reader.Uint(2);
    var size :- reader.Uint(2);
    if size == 0 {
      return None;
    }
    var signature :- reader.Read(size);
    if !reader.Empty() {
      return None;
    }
    if scheme !in SCHEMES || scheme !in client.signatureAlgorithms {
      return None;
    }
    return Some((scheme, signature));
  }

  // ---------- the proof ----------

  /** What `parse_proof` returns for the proof `p` that was framed as `f`. */
  function Parsed(sha256: Sha256, f: Frames, p: Proof): ParsedProof
    requires FramesFit(f)
  {
    ParsedProof(
      Handshake(CLIENT_HELLO, f.client), Handshake(SERVER_HELLO, f.server),
      Handshake(ENCRYPTED_EXTENSIONS, f.encrypted), Handshake(CERTIFICATE, f.certificate),
      Handshake(CERTIFICATE_VERIFY, f.verify),
      Chain(p.certificate), p.verify.scheme, p.verify.signature,
      sha256(WorkMessages(f)), ConnectionWorkHash(sha256, WorkMessages(f)))
  }

  function ParsedProofOf(sha256: Sha256, encoded: bytes, domain: string, challenge: bytes): Option<ParsedProof> {
    match DecodeProof(encoded, domain, challenge)
    case None => None
    case Some(p) => Some(Parsed(sha256, SplitProof(encoded).value, p))
  }

  /** The five headers and bodies, whole and body alone. */
  method ReadFrames(encoded: bytes) returns (r: Option<(Frames, seq<bytes>)>)
    ensures match SplitProof(encoded)
            case None => r.None?
            case Some(f) => r == Some((f, [
              Handshake(CLIENT_HELLO, f.client), Handshake(SERVER_HELLO, f.server),
              Handshake(ENCRYPTED_EXTENSIONS, f.encrypted), Handshake(CERTIFICATE, f.certificate),
              Handshake(CERTIFICATE_VERIFY, f.verify)]))
  {
    hide Reader.Rest, BE, ToBE, TakeUint, TakeHandshake, Handshake, FramesThen;
    if encoded == [] || |encoded| > MAX_PROOF_SIZE {
      return None;
    }
    var reader := new Reader(encoded);
    var version := reader.Uint(1);  // not empty, so never truncated
    if version.value != PROOF_VERSION {
      return None;
    }
    var client :- ReadHandshake(reader, CLIENT_HELLO, MAX_CLIENT_HELLO);
    var server :- ReadHandshake(reader, SERVER_HELLO, MAX_SERVER_HELLO);
    var encrypted :- ReadHandshake(reader, ENCRYPTED_EXTENSIONS, MAX_ENCRYPTED_EXTENSIONS);
    var certificate :- ReadHandshake(reader, CERTIFICATE, MAX_CERTIFICATE_MESSAGE_SIZE);
    var verify :- ReadHandshake(reader, CERTIFICATE_VERIFY, MAX_CERTIFICATE_VERIFY);
    if !reader.Empty() {
      return None;
    }
    return Some((Frames(client.1, server.1, encrypted.1, certificate.1, verify.1),
                 [client.0, server.0, encrypted.0, certificate.0, verify.0]));
  }

  method ParseProof(sha256: Sha256, encoded: bytes, expectedDomain: string, expectedChallenge: bytes)
    returns (r: Option<ParsedProof>)
    ensures r == ParsedProofOf(sha256, encoded, expectedDomain, expectedChallenge)
  {
    hide IsCanonicalDomain, SplitProof, DecodeClientHello, DecodeServerHello, DecodeEncryptedExtensions,
         DecodeCertificate, DecodeCertificateVerify, Handshake, ConnectionWorkHash;
    if !IsCanonicalDomain(expectedDomain) || |expectedChallenge| != 32 {
      return None;
    }
    var split :- ReadFrames(encoded);
    var (f, messages) := split;
    var client :- ParseClientHello(f.client, expectedDomain, expectedChallenge);
    var server :- ParseServerHello(f.server, client);
    var encrypted :- ParseEncryptedExtensions(f.encrypted);
    var chain :- ParseCertificate(f.certificate);
    var verify :- ParseCertificateVerify(f.verify, client);
    var transcript := messages[0] + messages[1] + messages[2] + messages[3];
    WorkMessagesFlat(f);
    return Some(ParsedProof(messages[0], messages[1], messages[2], messages[3], messages[4], chain, verify.0, verify.1,
                            sha256(transcript), ConnectionWorkHash(sha256, transcript)));
  }

  lemma WorkMessagesFlat(f: Frames)
    requires FramesFit(f)
    ensures Handshake(CLIENT_HELLO, f.client) + Handshake(SERVER_HELLO, f.server)
            + Handshake(ENCRYPTED_EXTENSIONS, f.encrypted) + Handshake(CERTIFICATE, f.certificate) == WorkMessages(f)
  {
    hide Handshake;
    var ch, sh := Handshake(CLIENT_HELLO, f.client), Handshake(SERVER_HELLO, f.server);
    var ee, ct := Handshake(ENCRYPTED_EXTENSIONS, f.encrypted), Handshake(CERTIFICATE, f.certificate);
    Assoc(ch + sh, ee, ct);
    Assoc(ch, sh, ee + ct);
  }
}
