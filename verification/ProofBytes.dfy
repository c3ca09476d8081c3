/** A proof as bytes: the format spelled out at its offsets, whatever printers and decoders are made of. */
module ProofBytes {
  import opened Bytes
  import opened Wire
  import opened Domain
  import opened Hashes
  import opened Messages
  import opened Protocol
  import opened ProofFormat
  import opened Parser

  // ---------- the pieces ----------

  lemma ItemSpelledOut(item: Item)
    ensures PrintItem(item) == U16(item.kind) + U16(|item.data|) + item.data
  {
    TwoBytes(item.kind);
    TwoBytes(|item.data|);
    hide ToBE, U16;
    Assoc(U16(item.kind), U16(|item.data|), item.data);
  }

  lemma EntrySpelledOut(entry: CertificateEntry)
    requires WellFormedEntry(entry)
    ensures PrintEntry(entry)
            == U24(|entry.certificate|) + entry.certificate + U16(|entry.extensions|) + entry.extensions
  {
    ThreeBytes(|entry.certificate|);
    TwoBytes(|entry.extensions|);
    hide ToBE, U16, U24;
    Assoc(U24(|entry.certificate|) + entry.certificate, U16(|entry.extensions|), entry.extensions);
  }

  lemma HandshakeSpelledOut(kind: byte, body: bytes)
    requires |body| < 0x100_0000
    ensures Handshake(kind, body) == [kind] + U24(|body|) + body
  {
    ThreeBytes(|body|);
    SmallConstants();
    hide ToBE, U24;
    Assoc([kind], U24(|body|), body);
  }

  /** What both hellos begin with, at the offsets of sections 4.1.2 and 4.1.3 of RFC 8446. */
  lemma HelloStartSpelledOut(random: bytes, sessionId: bytes)
    requires |sessionId| <= 32
    ensures HelloStart(random, sessionId) == [3, 3] + random + [|sessionId|] + sessionId
  {
    TwoBytes(TLS_1_2);
    SmallConstants();
    hide ToBE;
    Assoc([3, 3] + random, [|sessionId|], sessionId);
    Assoc([3, 3], random, [|sessionId|] + sessionId);
  }

  lemma OneByte()
    ensures Vector(1, [0]) == [1, 0]
  {
    SmallConstants();
  }

  lemma FiveParts(a: bytes, b: bytes, c: bytes, d: bytes, e: bytes)
    ensures a + b + (c + (d + e)) == a + b + c + d + e
  {
    Assoc(a + b, c, d + e);
    Assoc(a + b + c, d, e);
  }

  lemma OpeningSpelledOut(o: Opening)
    requires WellFormedOpening(o)
    ensures OpeningBody(o) == [3, 3] + o.random + [|o.sessionId|] + o.sessionId
                              + (U16(2 * |o.ciphers|) + PrintU16s(o.ciphers)
                                 + [1, 0] + U16(|PrintItems(o.extensions)|) + PrintItems(o.extensions))
  {
    HelloStartSpelledOut(o.random, o.sessionId);
    TwoBytes(2 * |o.ciphers|);
    TwoBytes(|PrintItems(o.extensions)|);
    OneByte();
    hide ToBE, U16, HelloStart, PrintItems, PrintU16s, Distinct;
    var ciphers, extensions := PrintU16s(o.ciphers), PrintItems(o.extensions);
    FiveParts(U16(|ciphers|), ciphers, [1, 0], U16(|extensions|), extensions);
  }

  lemma ServerHelloSpelledOut(h: ServerHello)
    requires |h.sessionId| <= 32 && |PrintItems(h.extensions)| < 0x1_0000
    ensures ServerHelloBody(h) == [3, 3] + h.random + [|h.sessionId|] + h.sessionId
                                  + (U16(h.cipher) + [0] + U16(|PrintItems(h.extensions)|) + PrintItems(h.extensions))
  {
    HelloStartSpelledOut(h.random, h.sessionId);
    TwoBytes(h.cipher);
    TwoBytes(|PrintItems(h.extensions)|);
    SmallConstants();
    hide ToBE, U16, HelloStart, PrintItems;
    var extensions := PrintItems(h.extensions);
    Assoc(U16(h.cipher), [0], U16(|extensions|) + extensions);
    Assoc(U16(h.cipher) + [0], U16(|extensions|), extensions);
  }

  lemma CertificateSpelledOut(entries: seq<CertificateEntry>)
    requires WellFormedEntries(entries) && |PrintEntries(entries)| < 0x100_0000
    ensures CertificateBody(entries) == [0] + U24(|PrintEntries(entries)|) + PrintEntries(entries)
  {
    ThreeBytes(|PrintEntries(entries)|);
    SmallConstants();
    hide ToBE, U24, PrintEntries;
    AppendNothing([0 as byte]);
    Assoc([0], U24(|PrintEntries(entries)|), PrintEntries(entries));
  }

  lemma CertificateVerifySpelledOut(v: CertificateVerify)
    ensures CertificateVerifyBody(v) == U16(v.scheme) + U16(|v.signature|) + v.signature
  {
    TwoBytes(v.scheme);
    TwoBytes(|v.signature|);
    hide ToBE, U16;
    Assoc(U16(v.scheme), U16(|v.signature|), v.signature);
  }

  /** A key share is acceptable exactly when it is one of these two forms. */
  lemma KeyShareSpelledOut(share: Item)
    ensures ValidKeyShare(share.kind, share.data) <==>
            || (exists x: bytes :: |x| == 32 && PrintItem(share) == [0, 29, 0, 32] + x)
            || (exists x: bytes :: |x| == 64 && PrintItem(share) == [0, 23, 0, 65, 4] + x)
  {
    ItemSpelledOut(share);
    var s := PrintItem(share);
    hide PrintItem;
    if ValidKeyShare(share.kind, share.data) {
      if share.kind == GROUP_X25519 {
        assert s == [0, 29, 0, 32] + share.data;
      } else {
        HeadTail(share.data);
        assert s == [0, 23, 0, 65, 4] + share.data[1..];
      }
    }
    if x: bytes :| |x| == 32 && s == [0, 29, 0, 32] + x {
      ItemHead(share, x, [0, 29, 0, 32]);
    }
    if x: bytes :| |x| == 64 && s == [0, 23, 0, 65, 4] + x {
      assert s == [0, 23, 0, 65] + ([4] + x);
      ItemHead(share, [4] + x, [0, 23, 0, 65]);
    }
  }

  lemma ItemHead(item: Item, data: bytes, head: bytes)
    requires |head| == 4 && U16(item.kind) + U16(|item.data|) + item.data == head + data
    ensures item.kind == head[0] as int * 256 + head[1] as int && item.data == data
  {
    var s := head + data;
    assert s[..4] == head && s[4..] == data;
    assert s[4..] == item.data && s[0] == item.kind / 256 && s[1] == item.kind % 256;
  }

  // ---------- the whole ----------

  /** A handshake message of a type, whose three length bytes count what follows them. */
  predicate IsMessage(m: bytes, kind: byte, maximum: nat) {
    4 <= |m| <= maximum && m[0] == kind && |m| == 4 + m[1] as int * 0x1_0000 + m[2] as int * 256 + m[3] as int
  }

  lemma HandshakeIsMessage(kind: byte, body: bytes, maximum: nat)
    requires |body| + 4 <= maximum && |body| < 0x100_0000
    ensures IsMessage(Handshake(kind, body), kind, maximum) && Handshake(kind, body)[4..] == body
  {
    HandshakeSpelledOut(kind, body);
    hide Handshake;
    var n := |body|;
    assert n == n / 0x1_0000 * 0x1_0000 + n / 256 % 256 * 256 + n % 256;
    assert ([kind] + U24(n) + body)[4..] == body;
  }

  /** What parsing returns: the five messages are the proof after its version byte, in order; the hashes are over
      the first four, joined. */
  lemma ParsedSpelledOut(sha256: Sha256, encoded: bytes, domain: string, challenge: bytes, q: ParsedProof)
    requires ParsedProofOf(sha256, encoded, domain, challenge) == Some(q)
    ensures |encoded| <= 0x1_0000
    ensures encoded == [2] + (q.clientHello + (q.serverHello + (q.encryptedExtensions
                                + (q.certificate + q.certificateVerify))))
    ensures IsMessage(q.clientHello, 1, 4096) && IsMessage(q.serverHello, 2, 2048)
    ensures IsMessage(q.encryptedExtensions, 8, 4096) && IsMessage(q.certificate, 11, 49152)
    ensures IsMessage(q.certificateVerify, 15, 8192)
    ensures var work := q.clientHello + (q.serverHello + (q.encryptedExtensions + q.certificate));
            && q.transcriptHash == sha256(work)
            && q.connectionWorkHash == sha256(sha256(WORK_TAG_BYTES) + sha256(WORK_TAG_BYTES) + work)
  {
    hide IsCanonicalDomain, DecodeFrames, SplitProof, TakeHandshake, Handshake, ToBE, TaggedPreimage, WORK_TAG_BYTES,
         IsMessage;
    var f := SplitProof(encoded).value;
    TaggedHashesSpelledOut(sha256, WorkMessages(f));
    SmallConstants();
    AppendNothing(Handshake(CERTIFICATE_VERIFY, f.verify));
    HandshakeIsMessage(CLIENT_HELLO, f.client, 4096);
    HandshakeIsMessage(SERVER_HELLO, f.server, 2048);
    HandshakeIsMessage(ENCRYPTED_EXTENSIONS, f.encrypted, 4096);
    HandshakeIsMessage(CERTIFICATE, f.certificate, 49152);
    HandshakeIsMessage(CERTIFICATE_VERIFY, f.verify, 8192);
    SplitBounds(encoded);
  }

  lemma SplitBounds(encoded: bytes)
    requires SplitProof(encoded).Some?
    ensures |encoded| <= 0x1_0000
  {
    hide TakeUint, TakeFrames;
  }

  /** The challenge and the leaf certificate at their offsets, and the scheme and signature that fill
      CertificateVerify. */
  predicate Binds(q: ParsedProof, challenge: bytes, hello: bytes, size: bytes, others: bytes) {
    && |q.clientHello| >= 4 && q.clientHello[4..] == [3, 3] + challenge + hello
    && 1 <= |q.certificateChain| <= 8 && 1 <= |q.certificateChain[0]| <= 16384
    && |q.certificate| >= 4 && |size| == 3
    && q.certificate[4..] == [0] + size + (U24(|q.certificateChain[0]|) + q.certificateChain[0] + others)
    && q.certificateVerifyScheme in {0x0403, 0x0804, 0x0809} && |q.certificateVerifySignature| < 0x1_0000
    && |q.certificateVerify| >= 4
    && q.certificateVerify[4..]
       == U16(q.certificateVerifyScheme) + U16(|q.certificateVerifySignature|) + q.certificateVerifySignature
  }

  lemma PrintedParts(encoded: bytes, domain: string, challenge: bytes, p: Proof)
    requires DecodeProof(encoded, domain, challenge) == Some(p)
    ensures WellFormedOpening(p.client.opening) && p.client.opening.random == challenge
    ensures WellFormedCertificate(p.certificate) && p.verify.scheme in SCHEMES
    ensures var f := SplitProof(encoded).value;
            && f.client == OpeningBody(p.client.opening) && f.certificate == CertificateBody(p.certificate)
            && f.verify == CertificateVerifyBody(p.verify)
  {
    hide SplitProof, DecodeClientHello, DecodeServerHello, DecodeEncryptedExtensions, DecodeCertificate,
         DecodeCertificateVerify, IsCanonicalDomain, OpeningBody, CertificateBody, CertificateVerifyBody,
         WellFormedShares, Dict, Vector, PrintU16s, WellFormedOpening, ServerName;
    DecodeFramesSound(SplitProof(encoded).value, domain, challenge);
  }

  lemma FirstEntry(entries: seq<CertificateEntry>) returns (others: bytes)
    requires WellFormedCertificate(entries)
    ensures |entries[0].certificate| < 0x100_0000
    ensures PrintEntries(entries) == U24(|entries[0].certificate|) + entries[0].certificate + others
  {
    hide PrintEntry, U24, U16;
    var e := entries[0];
    EntrySpelledOut(e);
    others := U16(|e.extensions|) + e.extensions + PrintEntries(entries[1..]);
    Assoc(U24(|e.certificate|) + e.certificate, U16(|e.extensions|), e.extensions);
    Assoc(U24(|e.certificate|) + e.certificate, U16(|e.extensions|) + e.extensions, PrintEntries(entries[1..]));
  }

  lemma ClientHelloBinds(o: Opening) returns (hello: bytes)
    requires WellFormedOpening(o) && |OpeningBody(o)| + 4 <= 4096
    ensures var m := Handshake(CLIENT_HELLO, OpeningBody(o)); |m| >= 4 && m[4..] == [3, 3] + o.random + hello
  {
    hide OpeningBody, Handshake, WellFormedOpening;
    HandshakeIsMessage(CLIENT_HELLO, OpeningBody(o), 4096);
    hello := HelloAfterRandom(o);
  }

  lemma CertificateBinds(entries: seq<CertificateEntry>) returns (size: bytes, others: bytes)
    requires WellFormedCertificate(entries) && |CertificateBody(entries)| + 4 <= 49152
    ensures |size| == 3 && |entries[0].certificate| < 0x100_0000
    ensures var m := Handshake(CERTIFICATE, CertificateBody(entries));
            |m| >= 4
            && m[4..] == [0] + size + (U24(|entries[0].certificate|) + entries[0].certificate + others)
  {
    size := U24(|PrintEntries(entries)|);
    hide CertificateBody, Handshake, PrintEntries, U24;
    HandshakeIsMessage(CERTIFICATE, CertificateBody(entries), 49152);
    CertificateSpelledOut(entries);
    others := FirstEntry(entries);
  }

  lemma CertificateVerifyBinds(v: CertificateVerify)
    requires |CertificateVerifyBody(v)| + 4 <= 8192
    ensures var m := Handshake(CERTIFICATE_VERIFY, CertificateVerifyBody(v));
            |m| >= 4 && m[4..] == U16(v.scheme) + U16(|v.signature|) + v.signature
  {
    hide CertificateVerifyBody, Handshake, U16;
    HandshakeIsMessage(CERTIFICATE_VERIFY, CertificateVerifyBody(v), 8192);
    CertificateVerifySpelledOut(v);
  }

  lemma ParsedBinds(sha256: Sha256, encoded: bytes, domain: string, challenge: bytes, q: ParsedProof)
    returns (hello: bytes, size: bytes, others: bytes)
    requires ParsedProofOf(sha256, encoded, domain, challenge) == Some(q)
    ensures Binds(q, challenge, hello, size, others)
  {
    hide IsCanonicalDomain, DecodeFrames, SplitProof, Handshake, ConnectionWorkHash, U16, U24, OpeningBody,
         CertificateBody, CertificateVerifyBody, PrintEntries, WellFormedOpening, WorkMessages, WellFormedEntries;
    var p, f := DecodeProof(encoded, domain, challenge).value, SplitProof(encoded).value;
    PrintedParts(encoded, domain, challenge, p);
    hello := ClientHelloBinds(p.client.opening);
    size, others := CertificateBinds(p.certificate);
    CertificateVerifyBinds(p.verify);
    LeafBounds(p.certificate);
  }

  lemma LeafBounds(entries: seq<CertificateEntry>)
    requires WellFormedCertificate(entries)
    ensures 1 <= |Chain(entries)| <= 8 && Chain(entries)[0] == entries[0].certificate
    ensures 1 <= |entries[0].certificate| <= 16384
  {
    hide PrintEntries;
  }

  lemma HelloAfterRandom(o: Opening) returns (hello: bytes)
    requires WellFormedOpening(o)
    ensures OpeningBody(o) == [3, 3] + o.random + hello
  {
    OpeningSpelledOut(o);
    hide OpeningBody, U16, PrintItems, PrintU16s, Distinct;
    var tail := U16(2 * |o.ciphers|) + PrintU16s(o.ciphers)
                + [1, 0] + U16(|PrintItems(o.extensions)|) + PrintItems(o.extensions);
    hello := [|o.sessionId|] + o.sessionId + tail;
    Assoc([3, 3] + o.random, [|o.sessionId|], o.sessionId);
    Assoc([3, 3] + o.random, [|o.sessionId|] + o.sessionId, tail);
  }

  // ---------- the rules, in the numbers of the registries ----------

  /** What is demanded of a ClientHello. */
  lemma ClientHelloRules(h: ClientHello, domain: string, challenge: bytes)
    requires IsCanonicalDomain(domain)
    ensures WellFormedClientHello(h, domain, challenge) <==>
            && var m := Dict(h.opening.extensions);
            && WellFormedOpening(h.opening) && h.opening.random == challenge
            && 0 in m && 13 in m && 43 in m && 51 in m
            && 27 !in m && 41 !in m && 42 !in m && 44 !in m && 45 !in m && 0xFE0D !in m
            && m[0] == ServerName(Encoded(domain))
            && 0x0304 in h.versions && |h.versions| <= 127 && m[43] == Vector(1, PrintU16s(h.versions))
            && 1 <= |h.schemes| <= 32767 && m[13] == Vector(2, PrintU16s(h.schemes))
            && WellFormedShares(h.shares) && |PrintItems(h.shares)| <= 0xFFFF
            && m[51] == Vector(2, PrintItems(h.shares))
  {
    hide IsCanonicalDomain, Encoded, Dict, WellFormedOpening, WellFormedShares, Vector, PrintU16s, PrintItems,
         ServerName;
  }

  /** What is demanded of a ServerHello after that ClientHello; its random is not the one of a HelloRetryRequest
      (section 4.1.3 of RFC 8446). */
  lemma ServerHelloRules(h: ServerHello, client: ClientState)
    ensures WellFormedServerHello(h, client) <==>
            && var m := Dict(h.extensions);
            && |h.random| == 32 && |h.sessionId| <= 32 && h.sessionId == client.legacySessionId
            && h.random != HELLO_RETRY_REQUEST_RANDOM
            && (h.cipher == 0x1301 || h.cipher == 0x1303) && h.cipher in client.cipherSuites
            && |PrintItems(h.extensions)| <= 0xFFFF && Distinct(h.extensions)
            && m.Keys == {43, 51} && m[43] == [3, 4]
            && ValidKeyShare(h.group, h.exchange) && h.group in client.keyShareGroups
            && m[51] == PrintItem(Item(h.group, h.exchange))
  {
    VersionBytes();
    hide Dict, PrintItems, PrintItem, Distinct, ValidKeyShare, ToBE, HELLO_RETRY_REQUEST_RANDOM;
  }

  lemma VersionBytes()
    ensures ToBE(TLS_1_3, 2) == [3, 4]
  {
    TwoBytes(TLS_1_3);
  }

  /** What is demanded of the other three messages. */
  lemma OtherRules(extensions: seq<Item>, entries: seq<CertificateEntry>, v: CertificateVerify, client: ClientState)
    ensures WellFormedEncryptedExtensions(extensions) <==>
            |PrintItems(extensions)| <= 0xFFFF && Distinct(extensions) && 42 !in Dict(extensions)
    ensures WellFormedCertificate(entries) <==>
            && 1 <= |entries| <= 8 && (forall i :: 0 <= i < |entries| ==> 1 <= |entries[i].certificate| <= 16384)
            && |PrintEntries(entries)| <= 0xFF_FFFF
    ensures WellFormedCertificateVerify(v, client) <==>
            && |v.signature| >= 1 && (v.scheme == 0x0403 || v.scheme == 0x0804 || v.scheme == 0x0809)
            && v.scheme in client.signatureAlgorithms
  {
    hide PrintItems, PrintEntries, Dict, Distinct;
  }
}
