/** The five handshake messages of a P2C v2 proof as values: how each is printed and when it is
    well formed. This is the declarative side; `Protocol` decodes and `Parser` is the program. */
module Messages {
  import opened Bytes
  import opened Wire
  import opened Domain
  import opened Signatures

  const CLIENT_HELLO: byte := 1
  const SERVER_HELLO: byte := 2
  const ENCRYPTED_EXTENSIONS: byte := 8
  const CERTIFICATE: byte := 11
  const CERTIFICATE_VERIFY: byte := 15

  const EXT_SERVER_NAME: u16 := 0
  const EXT_SIGNATURE_ALGORITHMS: u16 := 13
  const EXT_COMPRESS_CERTIFICATE: u16 := 27
  const EXT_PRE_SHARED_KEY: u16 := 41
  const EXT_EARLY_DATA: u16 := 42
  const EXT_SUPPORTED_VERSIONS: u16 := 43
  const EXT_COOKIE: u16 := 44
  const EXT_PSK_KEY_EXCHANGE_MODES: u16 := 45
  const EXT_KEY_SHARE: u16 := 51
  const EXT_ENCRYPTED_CLIENT_HELLO: u16 := 0xFE0D

  const REQUIRED: set<u16> := {
    EXT_SERVER_NAME, EXT_SUPPORTED_VERSIONS, EXT_SIGNATURE_ALGORITHMS, EXT_KEY_SHARE
  }
  const FORBIDDEN: set<u16> := {
    EXT_COMPRESS_CERTIFICATE, EXT_PRE_SHARED_KEY, EXT_EARLY_DATA, EXT_COOKIE,
    EXT_PSK_KEY_EXCHANGE_MODES, EXT_ENCRYPTED_CLIENT_HELLO
  }

  const TLS_1_2: u16 := 0x0303
  const TLS_1_3: u16 := 0x0304
  const TLS_AES_128_GCM_SHA256: u16 := 0x1301
  const TLS_CHACHA20_POLY1305_SHA256: u16 := 0x1303
  const CIPHERS: set<u16> := {TLS_AES_128_GCM_SHA256, TLS_CHACHA20_POLY1305_SHA256}
  const SCHEMES: set<u16> := {ECDSA_SECP256R1_SHA256, RSA_PSS_RSAE_SHA256, RSA_PSS_PSS_SHA256}
  const GROUP_SECP256R1: u16 := 0x0017
  const GROUP_X25519: u16 := 0x001D

  const HELLO_RETRY_REQUEST_RANDOM: bytes := [
    0xcf, 0x21, 0xad, 0x74, 0xe5, 0x9a, 0x61, 0x11, 0xbe, 0x1d, 0x8c, 0x02, 0x1e, 0x65, 0xb8, 0x91,
    0xc2, 0xa2, 0x11, 0x16, 0x7a, 0xbb, 0x8c, 0x5e, 0x07, 0x9e, 0x09, 0xe2, 0xc8, 0xa8, 0x33, 0x9c
  ]

  const PROOF_VERSION: byte := 2
  const MAX_PROOF_SIZE := 64 * 1024
  const MAX_CLIENT_HELLO := 4096
  const MAX_SERVER_HELLO := 2048
  const MAX_ENCRYPTED_EXTENSIONS := 4096
  const MAX_CERTIFICATE_MESSAGE_SIZE := 48 * 1024
  const MAX_CERTIFICATE_VERIFY := 8192
  const MAX_CERTIFICATES := 8
  const MAX_CERTIFICATE_SIZE := 16 * 1024

  /** A handshake message: type, three-byte length, body. */
  function Handshake(kind: byte, body: bytes): bytes
    requires |body| < 0x100_0000
  {
    ToBE(kind, 1) + Vector(3, body)
  }

  /** What both hellos begin with: the legacy version, the random and the session id. */
  function HelloStart(random: bytes, sessionId: bytes): bytes
    requires |sessionId| <= 32
  {
    ToBE(TLS_1_2, 2) + (random + Vector(1, sessionId))
  }

  predicate ValidKeyShare(group: u16, exchange: bytes) {
    || (group == GROUP_X25519 && |exchange| == 32)
    || (group == GROUP_SECP256R1 && |exchange| == 65 && exchange[0] == 4)
  }

  // ---------- ClientHello ----------

  /** The fields of a ClientHello, extensions undecoded. */
  datatype Opening = Opening(random: bytes, sessionId: bytes, ciphers: seq<u16>, extensions: seq<Item>)

  /** `versions`, `schemes` and `shares` are what the extension data spells out. */
  datatype ClientHello = ClientHello(
    opening: Opening, versions: seq<u16>, schemes: seq<u16>, shares: seq<Item>)

  /** What later messages are checked against. */
  datatype ClientState = ClientState(
    cipherSuites: seq<u16>, signatureAlgorithms: seq<u16>, keyShareGroups: seq<u16>, legacySessionId: bytes)

  function Kinds(items: seq<Item>): (kinds: seq<u16>)
    ensures |kinds| == |items|
  {
    seq(|items|, i requires 0 <= i < |items| => items[i].kind)
  }

  function StateOf(h: ClientHello): ClientState {
    ClientState(h.opening.ciphers, h.schemes, Kinds(h.shares), h.opening.sessionId)
  }

  /** The `server_name` extension of section 3 of RFC 6066 naming exactly one host. */
  function ServerName(host: bytes): bytes
    requires |host| < 0xFFFD
  {
    Vector(2, ToBE(0, 1) + Vector(2, host))
  }

  predicate WellFormedOpening(o: Opening) {
    && |o.random| == 32 && |o.sessionId| <= 32
    && o.ciphers != [] && 2 * |o.ciphers| < 0x1_0000
    && |PrintItems(o.extensions)| < 0x1_0000 && Distinct(o.extensions)
  }

  function OpeningBody(o: Opening): bytes
    requires WellFormedOpening(o)
  {
    HelloStart(o.random, o.sessionId)
      + (Vector(2, PrintU16s(o.ciphers)) + (Vector(1, [0]) + Vector(2, PrintItems(o.extensions))))
  }

  predicate WellFormedShares(shares: seq<Item>) {
    && shares != [] && Distinct(shares)
    && forall i :: 0 <= i < |shares| ==> ValidKeyShare(shares[i].kind, shares[i].data)
  }

  predicate WellFormedClientHello(h: ClientHello, domain: string, challenge: bytes)
    requires IsCanonicalDomain(domain)
  {
    var m := Dict(h.opening.extensions);
    && WellFormedOpening(h.opening) && h.opening.random == challenge
    && REQUIRED <= m.Keys && FORBIDDEN !! m.Keys
    && m[EXT_SERVER_NAME] == ServerName(Encoded(domain))
    && 1 <= |h.versions| && 2 * |h.versions| < 0x100 && TLS_1_3 in h.versions
    && m[EXT_SUPPORTED_VERSIONS] == Vector(1, PrintU16s(h.versions))
    && 1 <= |h.schemes| && 2 * |h.schemes| < 0x1_0000
    && m[EXT_SIGNATURE_ALGORITHMS] == Vector(2, PrintU16s(h.schemes))
    && WellFormedShares(h.shares) && |PrintItems(h.shares)| < 0x1_0000
    && m[EXT_KEY_SHARE] == Vector(2, PrintItems(h.shares))
  }

  // ---------- ServerHello ----------

  datatype ServerHello = ServerHello(
    random: bytes, sessionId: bytes, cipher: u16, extensions: seq<Item>, group: u16, exchange: bytes)

  function ServerHelloBody(h: ServerHello): bytes
    requires |h.sessionId| <= 32 && |PrintItems(h.extensions)| < 0x1_0000
  {
    HelloStart(h.random, h.sessionId)
      + (ToBE(h.cipher, 2) + (ToBE(0, 1) + Vector(2, PrintItems(h.extensions))))
  }

  predicate WellFormedServerHello(h: ServerHello, client: ClientState) {
    var m := Dict(h.extensions);
    && |h.random| == 32 && h.random != HELLO_RETRY_REQUEST_RANDOM
    && |h.sessionId| <= 32 && h.sessionId == client.legacySessionId
    && h.cipher in CIPHERS && h.cipher in client.cipherSuites
    && |PrintItems(h.extensions)| < 0x1_0000 && Distinct(h.extensions)
    && m.Keys == {EXT_SUPPORTED_VERSIONS, EXT_KEY_SHARE}
    && m[EXT_SUPPORTED_VERSIONS] == ToBE(TLS_1_3, 2)
    && ValidKeyShare(h.group, h.exchange) && h.group in client.keyShareGroups
    && m[EXT_KEY_SHARE] == PrintItem(Item(h.group, h.exchange))
  }

  // ---------- EncryptedExtensions ----------

  function EncryptedExtensionsBody(extensions: seq<Item>): bytes
    requires |PrintItems(extensions)| < 0x1_0000
  {
    Vector(2, PrintItems(extensions))
  }

  predicate WellFormedEncryptedExtensions(extensions: seq<Item>) {
    && |PrintItems(extensions)| < 0x1_0000 && Distinct(extensions)
    && EXT_EARLY_DATA !in Dict(extensions)
  }

  // ---------- Certificate ----------

  datatype CertificateEntry = CertificateEntry(certificate: bytes, extensions: vec16)

  predicate WellFormedEntry(entry: CertificateEntry) {
    1 <= |entry.certificate| <= MAX_CERTIFICATE_SIZE
  }

  function PrintEntry(entry: CertificateEntry): bytes
    requires WellFormedEntry(entry)
  {
    Vector(3, entry.certificate) + Vector(2, entry.extensions)
  }

  predicate WellFormedEntries(entries: seq<CertificateEntry>) {
    forall i :: 0 <= i < |entries| ==> WellFormedEntry(entries[i])
  }

  function PrintEntries(entries: seq<CertificateEntry>): (s: bytes)
    requires WellFormedEntries(entries)
    ensures s == [] <==> entries == []
  {
    if entries == [] then [] else PrintEntry(entries[0]) + PrintEntries(entries[1..])
  }

  function CertificateBody(entries: seq<CertificateEntry>): bytes
    requires WellFormedEntries(entries) && |PrintEntries(entries)| < 0x100_0000
  {
    Vector(1, []) + Vector(3, PrintEntries(entries))
  }

  predicate WellFormedCertificate(entries: seq<CertificateEntry>) {
    && 1 <= |entries| <= MAX_CERTIFICATES
    && WellFormedEntries(entries) && |PrintEntries(entries)| < 0x100_0000
  }

  /** The certificates alone, leaf first. */
  function Chain(entries: seq<CertificateEntry>): (chain: seq<bytes>)
    ensures |chain| == |entries|
  {
    seq(|entries|, i requires 0 <= i < |entries| => entries[i].certificate)
  }

  // ---------- CertificateVerify ----------

  datatype CertificateVerify = CertificateVerify(scheme: u16, signature: vec16)

  function CertificateVerifyBody(v: CertificateVerify): bytes {
    ToBE(v.scheme, 2) + Vector(2, v.signature)
  }

  predicate WellFormedCertificateVerify(v: CertificateVerify, client: ClientState) {
    v.signature != [] && v.scheme in SCHEMES && v.scheme in client.signatureAlgorithms
  }

  // ---------- the proof ----------

  datatype Proof = Proof(
    client: ClientHello, server: ServerHello, encrypted: seq<Item>,
    certificate: seq<CertificateEntry>, verify: CertificateVerify)

}
