/** The proof format as decoding functions, and the theorem that they accept exactly the printed
    forms of well-formed messages. `Parser` holds the program that is proved to compute them. */
module Protocol {
  import opened Bytes
  import opened Wire
  import opened Domain
  import opened Messages

  function TakeHandshake(s: bytes, kind: byte, maximum: nat): (r: Option<(bytes, bytes)>)
    ensures r.Some? ==> |r.value.0| < 0x100_0000 && |r.value.0| + 4 <= maximum
                        && s == Handshake(kind, r.value.0) + r.value.1
  {
    hide TakeUint, Take, ToBE;
    var (found, s1) :- TakeUint(s, 1);
    var (size, s2) :- TakeUint(s1, 3);
    if found != kind || size + 4 > maximum then None else Take(s2, size)
  }

  lemma TakeHandshakePrinted(kind: byte, body: bytes, maximum: nat, rest: bytes)
    requires |body| < 0x100_0000
    ensures TakeHandshake(Handshake(kind, body) + rest, kind, maximum)
            == if |body| + 4 <= maximum then Some((body, rest)) else None
  {
    hide TakeUint, Take, ToBE;
    var a, b := ToBE(kind, 1), ToBE(|body|, 3);
    Assoc(a, b + body, rest);
    Assoc(b, body, rest);
    TakeUintPrinted(kind, 1, b + (body + rest));
    TakeUintPrinted(|body|, 3, body + rest);
    TakePrinted(body, rest);
  }

  /** The version, random and session id that both hellos begin with. */
  function TakeHelloStart(s: bytes): (r: Option<(bytes, bytes, bytes)>)
    ensures r.Some? ==> |r.value.0| == 32 && |r.value.1| <= 32
                        && s == HelloStart(r.value.0, r.value.1) + r.value.2
  {
    hide TakeUint, Take, TakeVector, ToBE, Vector;
    var (version, s1) :- TakeUint(s, 2);
    var (random, s2) :- Take(s1, 32);
    var (session, rest) :- TakeVector(s2, 1);
    if version != TLS_1_2 || |session| > 32 then None else
      var a, b := ToBE(TLS_1_2, 2), Vector(1, session);
      Assoc(a, random + b, rest);
      Assoc(random, b, rest);
      Some((random, session, rest))
  }

  lemma TakeHelloStartPrinted(random: bytes, session: bytes, rest: bytes)
    requires |random| == 32 && |session| <= 32
    ensures TakeHelloStart(HelloStart(random, session) + rest) == Some((random, session, rest))
  {
    hide TakeUint, Take, TakeVector, ToBE, Vector;
    var a, b := ToBE(TLS_1_2, 2), Vector(1, session);
    Assoc(a, random + b, rest);
    Assoc(random, b, rest);
    TakeUintPrinted(TLS_1_2, 2, random + (b + rest));
    TakePrinted(random, b + rest);
    TakeVectorPrinted(1, session, rest);
  }

  // ---------- the parts of a ClientHello ----------

  /** The single DNS name of a `server_name` extension that fills `s`. */
  function DecodeServerName(s: bytes): Option<bytes> {
    var (list, rest) :- TakeVector(s, 2);
    var (kind, s1) :- TakeUint(list, 1);
    var (name, s2) :- TakeVector(s1, 2);
    if rest != [] || kind != 0 || s2 != [] then None else Some(name)
  }

  lemma DecodeServerNameExact(s: bytes, host: bytes)
    requires |host| <= MAX_DOMAIN
    ensures DecodeServerName(s) == Some(host) <==> s == ServerName(host)
  {
    hide TakeUint, TakeVector;
    var name := Vector(2, host);
    AppendNothing(name);
    AppendNothing(ServerName(host));
    TakeVectorPrinted(2, ToBE(0, 1) + name, []);
    TakeUintPrinted(0, 1, name);
    TakeVectorPrinted(2, host, []);
    if DecodeServerName(s) == Some(host) {
      var list := TakeVector(s, 2).value.0;
      AppendNothing(Vector(2, list));
    }
  }

  /** A non-empty list of two-byte codes that fills `s`. */
  function DecodeCodes(s: bytes, width: nat): (r: Option<seq<u16>>)
    ensures r.Some? ==> r.value != [] && 2 * |r.value| < Pow256(width) && s == Vector(width, PrintU16s(r.value))
  {
    hide TakeVector, DecodeU16s, Vector, PrintU16s;
    var (encoded, rest) :- TakeVector(s, width);
    if rest != [] || |encoded| < 2 || |encoded| % 2 != 0 then None else Some(DecodeU16s(encoded))
  }

  lemma DecodeCodesPrinted(values: seq<u16>, width: nat)
    requires values != [] && 2 * |values| < Pow256(width)
    ensures DecodeCodes(Vector(width, PrintU16s(values)), width) == Some(values)
  {
    hide TakeVector, DecodeU16s, Vector, PrintU16s;
    var s := Vector(width, PrintU16s(values));
    TakeVectorPrinted(width, PrintU16s(values), []);
    AppendNothing(s);
    DecodeU16sPrinted(values);
  }

  /** The key shares of a ClientHello: at least one, each valid, no group twice. */
  function DecodeShares(s: bytes): (r: Option<seq<Item>>)
    ensures r.Some? ==> WellFormedShares(r.value) && |PrintItems(r.value)| < 0x1_0000
                        && s == Vector(2, PrintItems(r.value))
  {
    hide TakeVector, DecodeItems, WellFormedShares, Vector, PrintItems;
    var (encoded, rest) :- TakeVector(s, 2);
    if rest != [] then None else
      var shares :- DecodeItems(encoded);
      if WellFormedShares(shares) then Some(shares) else None
  }

  lemma DecodeSharesPrinted(shares: seq<Item>)
    requires WellFormedShares(shares) && |PrintItems(shares)| < 0x1_0000
    ensures DecodeShares(Vector(2, PrintItems(shares))) == Some(shares)
  {
    hide TakeVector, DecodeItems, Vector, PrintItems;
    var s := Vector(2, PrintItems(shares));
    TakeVectorPrinted(2, PrintItems(shares), []);
    AppendNothing(s);
    DecodeItemsPrinted(shares);
  }

  function DecodeOpening(body: bytes): Option<Opening> {
    hide TakeHelloStart, TakeVector, DecodeExtensions, DecodeU16s, HelloStart, Vector, PrintU16s, PrintItems, Distinct;
    var (random, session, s3) :- TakeHelloStart(body);
    var (ciphers, s4) :- TakeVector(s3, 2);
    var (compression, s5) :- TakeVector(s4, 1);
    var extensions :- DecodeExtensions(s5);
    if |ciphers| < 2 || |ciphers| % 2 != 0 || compression != [0]
    then None
    else Some(Opening(random, session, DecodeU16s(ciphers), extensions))
  }

  lemma DecodeOpeningSound(body: bytes)
    requires DecodeOpening(body).Some?
    ensures WellFormedOpening(DecodeOpening(body).value) && body == OpeningBody(DecodeOpening(body).value)
  {
    hide TakeHelloStart, TakeVector, DecodeExtensions, DecodeU16s, HelloStart, Vector, PrintU16s, PrintItems, Distinct;
  }

  lemma DecodeOpeningPrinted(o: Opening)
    requires WellFormedOpening(o)
    ensures DecodeOpening(OpeningBody(o)) == Some(o)
  {
    hide TakeHelloStart, TakeVector, DecodeExtensions, DecodeU16s, HelloStart, Vector, PrintU16s, PrintItems, Distinct;
    var s5 := Vector(2, PrintItems(o.extensions));
    var s4 := Vector(1, [0]) + s5;
    var s3 := Vector(2, PrintU16s(o.ciphers)) + s4;
    TakeHelloStartPrinted(o.random, o.sessionId, s3);
    TakeVectorPrinted(2, PrintU16s(o.ciphers), s4);
    TakeVectorPrinted(1, [0], s5);
    DecodeExtensionsPrinted(o.extensions);
    DecodeU16sPrinted(o.ciphers);
  }

  // ---------- the five messages ----------

  function DecodeClientHello(body: bytes, domain: string, challenge: bytes): (r: Option<ClientHello>)
    requires IsCanonicalDomain(domain)
  {
    hide DecodeOpening, DecodeCodes, DecodeShares, Dict, ServerName, IsCanonicalDomain, Encoded;
    var o :- DecodeOpening(body);
    var m := Dict(o.extensions);
    if o.random != challenge || !(REQUIRED <= m.Keys) || !(FORBIDDEN !! m.Keys)
       || m[EXT_SERVER_NAME] != ServerName(Encoded(domain)) then None
    else
      var versions :- DecodeCodes(m[EXT_SUPPORTED_VERSIONS], 1);
      var schemes :- DecodeCodes(m[EXT_SIGNATURE_ALGORITHMS], 2);
      var shares :- DecodeShares(m[EXT_KEY_SHARE]);
      if TLS_1_3 !in versions then None else
        Some(ClientHello(o, versions, schemes, shares))
  }

  lemma DecodeClientHelloSound(body: bytes, domain: string, challenge: bytes)
    requires IsCanonicalDomain(domain) && DecodeClientHello(body, domain, challenge).Some?
    ensures var h := DecodeClientHello(body, domain, challenge).value;
            WellFormedClientHello(h, domain, challenge) && body == OpeningBody(h.opening)
  {
    hide DecodeOpening, DecodeCodes, DecodeShares, Dict, OpeningBody, Vector, PrintItems, PrintU16s, ServerName,
         WellFormedShares, Distinct, IsCanonicalDomain, Encoded;
    DecodeOpeningSound(body);
  }

  lemma DecodeClientHelloPrinted(h: ClientHello, domain: string, challenge: bytes)
    requires IsCanonicalDomain(domain) && WellFormedClientHello(h, domain, challenge)
    ensures DecodeClientHello(OpeningBody(h.opening), domain, challenge) == Some(h)
  {
    hide DecodeOpening, DecodeCodes, DecodeShares, Dict, OpeningBody, Vector, PrintItems, PrintU16s, ServerName,
         WellFormedShares, Distinct, IsCanonicalDomain, Encoded;
    DecodeOpeningPrinted(h.opening);
    DecodeCodesPrinted(h.versions, 1);
    DecodeCodesPrinted(h.schemes, 2);
    DecodeSharesPrinted(h.shares);
  }

  /** One key share that fills `s`. */
  function DecodeShare(s: bytes): (r: Option<Item>)
    ensures r.Some? ==> s == PrintItem(r.value)
  {
    hide TakeUint, TakeVector, ToBE, Vector;
    var (group, s1) :- TakeUint(s, 2);
    var (exchange, rest) :- TakeVector(s1, 2);
    if rest != [] then None else
      AppendNothing(PrintItem(Item(group, exchange)));
      Assoc(ToBE(group, 2), Vector(2, exchange), rest);
      Some(Item(group, exchange))
  }

  lemma DecodeSharePrinted(share: Item)
    ensures DecodeShare(PrintItem(share)) == Some(share)
  {
    hide TakeUint, TakeVector, ToBE, Vector;
    var data := Vector(2, share.data);
    TakeUintPrinted(share.kind, 2, data);
    TakeVectorPrinted(2, share.data, []);
    AppendNothing(data);
  }

  /** The key share that a ServerHello's extensions select, when they are the two allowed ones. */
  function DecodeServerShare(m: map<u16, bytes>, client: ClientState): (r: Option<Item>)
    ensures r.Some? ==> && m.Keys == {EXT_SUPPORTED_VERSIONS, EXT_KEY_SHARE}
                        && m[EXT_SUPPORTED_VERSIONS] == ToBE(TLS_1_3, 2) && m[EXT_KEY_SHARE] == PrintItem(r.value)
                        && ValidKeyShare(r.value.kind, r.value.data) && r.value.kind in client.keyShareGroups
  {
    hide DecodeShare, ToBE;
    if m.Keys != {EXT_SUPPORTED_VERSIONS, EXT_KEY_SHARE} || m[EXT_SUPPORTED_VERSIONS] != ToBE(TLS_1_3, 2) then None
    else
      var share :- DecodeShare(m[EXT_KEY_SHARE]);
      if !ValidKeyShare(share.kind, share.data) || share.kind !in client.keyShareGroups then None else Some(share)
  }

  function DecodeServerHello(body: bytes, client: ClientState): (r: Option<ServerHello>)
  {
    hide TakeHelloStart, TakeUint, DecodeExtensions, DecodeServerShare;
    var (random, session, s3) :- TakeHelloStart(body);
    var (cipher, s4) :- TakeUint(s3, 2);
    var (compression, s5) :- TakeUint(s4, 1);
    var extensions :- DecodeExtensions(s5);
    var share :- DecodeServerShare(Dict(extensions), client);
    if || random == HELLO_RETRY_REQUEST_RANDOM || session != client.legacySessionId
       || cipher !in CIPHERS || cipher !in client.cipherSuites || compression != 0
    then None
    else Some(ServerHello(random, session, cipher, extensions, share.kind, share.data))
  }

  lemma DecodeServerHelloSound(body: bytes, client: ClientState)
    requires DecodeServerHello(body, client).Some?
    ensures var h := DecodeServerHello(body, client).value;
            WellFormedServerHello(h, client) && body == ServerHelloBody(h)
  {
    hide TakeHelloStart, TakeUint, DecodeExtensions, DecodeServerShare, Dict, HelloStart, Vector, PrintItems, PrintItem,
         Distinct, ValidKeyShare, ToBE;
  }

  lemma DecodeServerHelloPrinted(h: ServerHello, client: ClientState)
    requires WellFormedServerHello(h, client)
    ensures DecodeServerHello(ServerHelloBody(h), client) == Some(h)
  {
    hide TakeHelloStart, TakeUint, DecodeExtensions, DecodeShare, Dict, HelloStart, Vector, PrintItems, PrintItem,
         Distinct, ToBE;
    var s5 := Vector(2, PrintItems(h.extensions));
    var s4 := ToBE(0, 1) + s5;
    var s3 := ToBE(h.cipher, 2) + s4;
    TakeHelloStartPrinted(h.random, h.sessionId, s3);
    TakeUintPrinted(h.cipher, 2, s4);
    TakeUintPrinted(0, 1, s5);
    DecodeExtensionsPrinted(h.extensions);
    DecodeSharePrinted(Item(h.group, h.exchange));
  }

  function DecodeEncryptedExtensions(body: bytes): (r: Option<seq<Item>>)
    ensures r.Some? ==> WellFormedEncryptedExtensions(r.value) && body == EncryptedExtensionsBody(r.value)
  {
    hide DecodeExtensions, Vector, PrintItems, Distinct, Dict;
    var extensions :- DecodeExtensions(body);
    if EXT_EARLY_DATA in Dict(extensions) then None else Some(extensions)
  }

  lemma DecodeEncryptedExtensionsPrinted(extensions: seq<Item>)
    requires WellFormedEncryptedExtensions(extensions)
    ensures DecodeEncryptedExtensions(EncryptedExtensionsBody(extensions)) == Some(extensions)
  {
    hide DecodeExtensions, Vector, PrintItems, Distinct, Dict;
    DecodeExtensionsPrinted(extensions);
  }

  function TakeEntry(s: bytes): (r: Option<(CertificateEntry, bytes)>)
    ensures r.Some? ==> WellFormedEntry(r.value.0) && s == PrintEntry(r.value.0) + r.value.1
  {
    hide TakeVector, Vector;
    var (certificate, s1) :- TakeVector(s, 3);
    var (extensions, s2) :- TakeVector(s1, 2);
    if !(1 <= |certificate| <= MAX_CERTIFICATE_SIZE) then None
    else
      var a, b := Vector(3, certificate), Vector(2, extensions);
      Assoc(a, b, s2);
      Some((CertificateEntry(certificate, extensions), s2))
  }

  lemma TakeEntryPrinted(entry: CertificateEntry, rest: bytes)
    requires WellFormedEntry(entry)
    ensures TakeEntry(PrintEntry(entry) + rest) == Some((entry, rest))
  {
    hide TakeVector, Vector;
    var a, b := Vector(3, entry.certificate), Vector(2, entry.extensions);
    Assoc(a, b, rest);
    TakeVectorPrinted(3, entry.certificate, b + rest);
    TakeVectorPrinted(2, entry.extensions, rest);
  }

  /** At most `room` certificate entries that fill `s`. */
  function DecodeEntries(s: bytes, room: nat): (r: Option<seq<CertificateEntry>>)
    ensures r.Some? ==> |r.value| <= room && WellFormedEntries(r.value) && s == PrintEntries(r.value)
    ensures r.Some? && s != [] ==> r.value != []
    decreases room
  {
    hide TakeEntry, PrintEntry;
    if s == [] then Some([])
    else if room == 0 then None
    else
      var (entry, s1) :- TakeEntry(s);
      var rest :- DecodeEntries(s1, room - 1);
      var entries := [entry] + rest;
      assert entries[1..] == rest;
      Some(entries)
  }

  lemma DecodeEntriesStep(entry: CertificateEntry, rest: bytes, room: nat)
    requires WellFormedEntry(entry) && room > 0
    ensures DecodeEntries(PrintEntry(entry) + rest, room) ==
            match DecodeEntries(rest, room - 1) case None => None case Some(l) => Some([entry] + l)
  {
    TakeEntryPrinted(entry, rest);
    hide TakeEntry, Vector;
  }

  lemma {:induction false} DecodeEntriesPrinted(entries: seq<CertificateEntry>, room: nat)
    requires WellFormedEntries(entries)
    ensures |entries| <= room ==> DecodeEntries(PrintEntries(entries), room) == Some(entries)
    ensures |entries| > room ==> DecodeEntries(PrintEntries(entries), room) == None
    decreases room
  {
    hide PrintEntry, TakeEntry, WellFormedEntry;
    if entries == [] {
      assert DecodeEntries(PrintEntries(entries), room) == Some([]);
    } else if room == 0 {
      assert DecodeEntries(PrintEntries(entries), room) == None;
    } else {
      hide DecodeEntries;
      DecodeEntriesStep(entries[0], PrintEntries(entries[1..]), room);
      DecodeEntriesPrinted(entries[1..], room - 1);
      assert entries == [entries[0]] + entries[1..];
      assert |entries| <= room ==> DecodeEntries(PrintEntries(entries), room) == Some(entries);
      assert |entries| > room ==> DecodeEntries(PrintEntries(entries), room) == None;
    }
  }

  function DecodeCertificate(body: bytes): (r: Option<seq<CertificateEntry>>)
  {
    hide TakeVector, DecodeEntries;
    var (context, s1) :- TakeVector(body, 1);
    var (encoded, s2) :- TakeVector(s1, 3);
    if context != [] || encoded == [] || s2 != [] then None else
      DecodeEntries(encoded, MAX_CERTIFICATES)
  }

  lemma DecodeCertificateSound(body: bytes)
    requires DecodeCertificate(body).Some?
    ensures var entries := DecodeCertificate(body).value;
            WellFormedCertificate(entries) && body == CertificateBody(entries)
  {
    hide TakeVector, DecodeEntries, Vector, PrintEntries, WellFormedEntries;
    var s1 := TakeVector(body, 1).value.1;
    var (encoded, s2) := TakeVector(s1, 3).value;
    AppendNothing(Vector(3, encoded));
  }

  lemma DecodeCertificatePrinted(entries: seq<CertificateEntry>)
    requires WellFormedCertificate(entries)
    ensures DecodeCertificate(CertificateBody(entries)) == Some(entries)
  {
    hide TakeVector, DecodeEntries, Vector, PrintEntries, WellFormedEntries;
    var list := Vector(3, PrintEntries(entries));
    TakeVectorPrinted(1, [], list);
    TakeVectorPrinted(3, PrintEntries(entries), []);
    AppendNothing(list);
    DecodeEntriesPrinted(entries, MAX_CERTIFICATES);
  }

  function DecodeCertificateVerify(body: bytes, client: ClientState): (r: Option<CertificateVerify>)
    ensures r.Some? ==> WellFormedCertificateVerify(r.value, client) && body == CertificateVerifyBody(r.value)
  {
    hide TakeUint, TakeVector, ToBE, Vector;
    var (scheme, s1) :- TakeUint(body, 2);
    var (signature, rest) :- TakeVector(s1, 2);
    if signature == [] || rest != [] || scheme !in SCHEMES || scheme !in client.signatureAlgorithms
    then None
    else Some(CertificateVerify(scheme, signature))
  }

  lemma DecodeCertificateVerifyPrinted(v: CertificateVerify, client: ClientState)
    requires WellFormedCertificateVerify(v, client)
    ensures DecodeCertificateVerify(CertificateVerifyBody(v), client) == Some(v)
  {
    hide TakeUint, TakeVector, ToBE, Vector;
    var data := Vector(2, v.signature);
    TakeUintPrinted(v.scheme, 2, data);
    TakeVectorPrinted(2, v.signature, []);
    AppendNothing(data);
  }
}
