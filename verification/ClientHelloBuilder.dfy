/** The ClientHello the tools send (tls13.py), and the proof that their own parser reads it back. */
module ClientHelloBuilder {
  import opened Bytes
  import opened Wire
  import opened Domain
  import opened Signatures
  import opened Messages
  import opened Protocol

  const EXT_SUPPORTED_GROUPS: u16 := 10
  const EXT_SIGNATURE_ALGORITHMS_CERT: u16 := 50

  /** Offered for the signatures of certificate issuers, whatever the output's mask is. */
  const CERTIFICATE_SCHEMES: seq<u16> := [
    0x0403, 0x0503, 0x0603, 0x0804, 0x0805, 0x0806, 0x0809, 0x080A, 0x080B, 0x0401, 0x0501, 0x0601
  ]

  /** The longest ClientHello: a 253-byte name, three schemes and a 32-byte session id. */
  const MAX_BUILT_CLIENT_HELLO := 442

  function Extension(kind: u16, data: bytes): bytes
    requires |data| < 0x1_0000
  {
    ToBE(kind, 2) + ToBE(|data|, 2) + data
  }

  /** The claim and the fresh values of one attempt that the source accepts. */
  predicate Buildable(domain: string, challenge: bytes, publicKey: bytes, sessionId: bytes) {
    IsCanonicalDomain(domain) && |challenge| == 32 && |publicKey| == 32 && 1 <= |sessionId| <= 32
  }

  function ServerNameEntry(domain: string): bytes
    requires IsCanonicalDomain(domain)
  {
    [0] + ToBE(|Encoded(domain)|, 2) + Encoded(domain)
  }

  /** The six extensions in the order they are sent. */
  function BuildExtensions(domain: string, publicKey: bytes, mask: Mask): (extensions: bytes)
    requires IsCanonicalDomain(domain) && |publicKey| == 32
    ensures |extensions| <= 361
  {
    var serverName := ServerNameEntry(domain);
    AcceptedSchemesTable(mask);
    var schemes := PrintU16s(AcceptedSchemes(mask));
    var certificateSchemes := PrintU16s(CERTIFICATE_SCHEMES);
    var keyShare := ToBE(GROUP_X25519, 2) + ToBE(|publicKey|, 2) + publicKey;
    Extension(EXT_SERVER_NAME, ToBE(|serverName|, 2) + serverName)
    + Extension(EXT_SUPPORTED_GROUPS, [0, 2] + ToBE(GROUP_X25519, 2))
    + Extension(EXT_SIGNATURE_ALGORITHMS, ToBE(|schemes|, 2) + schemes)
    + Extension(EXT_SIGNATURE_ALGORITHMS_CERT, ToBE(|certificateSchemes|, 2) + certificateSchemes)
    + Extension(EXT_SUPPORTED_VERSIONS, [2] + ToBE(TLS_1_3, 2))
    + Extension(EXT_KEY_SHARE, ToBE(|keyShare|, 2) + keyShare)
  }

  function BuildBody(challenge: bytes, sessionId: bytes, extensions: bytes): (body: bytes)
    requires |challenge| == 32 && |sessionId| <= 32 && |extensions| <= 361
    ensures |body| + 4 <= MAX_BUILT_CLIENT_HELLO
  {
    hide ToBE;
    var ciphers := ToBE(TLS_AES_128_GCM_SHA256, 2) + ToBE(TLS_CHACHA20_POLY1305_SHA256, 2);
    ToBE(TLS_1_2, 2) + challenge + [|sessionId|] + sessionId + ToBE(|ciphers|, 2) + ciphers
      + [1, 0] + ToBE(|extensions|, 2) + extensions
  }

  /** `build_client_hello`; `None` where the source raises. */
  function BuildClientHello(domain: string, challenge: bytes, publicKey: bytes, sessionId: bytes, mask: Mask)
    : (r: Option<bytes>)
    ensures r.Some? <==> Buildable(domain, challenge, publicKey, sessionId)
    ensures r.Some? ==> |r.value| <= MAX_BUILT_CLIENT_HELLO
  {
    hide IsCanonicalDomain, BuildExtensions, BuildBody, ToBE;
    if !Buildable(domain, challenge, publicKey, sessionId) then None else
      var body := BuildBody(challenge, sessionId, BuildExtensions(domain, publicKey, mask));
      Some([CLIENT_HELLO] + ToBE(|body|, 3) + body)
  }

  // ---------- the same message as a value ----------

  function BuiltItems(domain: string, publicKey: bytes, mask: Mask): seq<Item>
    requires IsCanonicalDomain(domain) && |publicKey| == 32
  {
    hide IsCanonicalDomain, Encoded, ToBE, PrintU16s;
    AcceptedSchemesTable(mask);
    [ Item(EXT_SERVER_NAME, ServerName(Encoded(domain))),
      Item(EXT_SUPPORTED_GROUPS, Vector(2, PrintU16s([GROUP_X25519]))),
      Item(EXT_SIGNATURE_ALGORITHMS, Vector(2, PrintU16s(AcceptedSchemes(mask)))),
      Item(EXT_SIGNATURE_ALGORITHMS_CERT, Vector(2, PrintU16s(CERTIFICATE_SCHEMES))),
      Item(EXT_SUPPORTED_VERSIONS, Vector(1, PrintU16s([TLS_1_3]))),
      Item(EXT_KEY_SHARE, Vector(2, PrintItem(Item(GROUP_X25519, publicKey)))) ]
  }

  function BuiltHello(domain: string, challenge: bytes, publicKey: bytes, sessionId: bytes, mask: Mask): ClientHello
    requires Buildable(domain, challenge, publicKey, sessionId)
  {
    ClientHello(
      Opening(challenge, sessionId, [TLS_AES_128_GCM_SHA256, TLS_CHACHA20_POLY1305_SHA256],
              BuiltItems(domain, publicKey, mask)),
      [TLS_1_3], AcceptedSchemes(mask), [Item(GROUP_X25519, publicKey)])
  }

  lemma ExtensionIsItem(kind: u16, data: bytes)
    requires |data| < 0x1_0000
    ensures Extension(kind, data) == PrintItem(Item(kind, data))
  {
    Assoc(ToBE(kind, 2), ToBE(|data|, 2), data);
  }

  lemma PrintOne(value: u16)
    ensures PrintU16s([value]) == ToBE(value, 2)
  {
    AppendNothing(ToBE(value, 2));
  }

  lemma PrintSix(a: Item, b: Item, c: Item, d: Item, e: Item, f: Item)
    ensures PrintItems([a, b, c, d, e, f])
            == PrintItem(a) + PrintItem(b) + PrintItem(c) + PrintItem(d) + PrintItem(e) + PrintItem(f)
  {
    hide PrintItem;
    PrintOneItem(a);
    PrintItemsSnoc([a], b);
    PrintItemsSnoc([a] + [b], c);
    PrintItemsSnoc([a] + [b] + [c], d);
    PrintItemsSnoc([a] + [b] + [c] + [d], e);
    PrintItemsSnoc([a] + [b] + [c] + [d] + [e], f);
    hide PrintItems;
    assert [a, b, c, d, e, f] == [a] + [b] + [c] + [d] + [e] + [f];
  }

  lemma BuiltExtensions(domain: string, publicKey: bytes, mask: Mask)
    requires IsCanonicalDomain(domain) && |publicKey| == 32
    ensures BuildExtensions(domain, publicKey, mask) == PrintItems(BuiltItems(domain, publicKey, mask))
  {
    hide IsCanonicalDomain, Encoded, ToBE, PrintU16s, AcceptedSchemes, PrintItems, PrintItem;
    var items := BuiltItems(domain, publicKey, mask);
    var host, share := Encoded(domain), Item(GROUP_X25519, publicKey);
    SmallConstants();
    PrintOne(GROUP_X25519);
    PrintOne(TLS_1_3);
    Assoc([0], ToBE(|host|, 2), host);
    ExtensionIsItem(GROUP_X25519, publicKey);
    assert Extension(GROUP_X25519, publicKey) == ToBE(GROUP_X25519, 2) + ToBE(32, 2) + publicKey;
    PrintSix(items[0], items[1], items[2], items[3], items[4], items[5]);
    forall i | 0 <= i < 6 ensures Extension(items[i].kind, items[i].data) == PrintItem(items[i]) {
      ExtensionIsItem(items[i].kind, items[i].data);
    }
  }

  lemma BuiltBody(challenge: bytes, sessionId: bytes, items: seq<Item>)
    requires |challenge| == 32 && |sessionId| <= 32 && |PrintItems(items)| <= 361 && Distinct(items)
    ensures BuildBody(challenge, sessionId, PrintItems(items)) == OpeningBody(
              Opening(challenge, sessionId, [TLS_AES_128_GCM_SHA256, TLS_CHACHA20_POLY1305_SHA256], items))
  {
    hide ToBE, PrintItems, Distinct;
    SmallConstants();
    var version, size, extensions := ToBE(TLS_1_2, 2), [|sessionId|], PrintItems(items);
    var c0, c1 := ToBE(TLS_AES_128_GCM_SHA256, 2), ToBE(TLS_CHACHA20_POLY1305_SHA256, 2);
    var start, ciphers, block := HelloStart(challenge, sessionId), Vector(2, c0 + c1), Vector(2, extensions);
    Assoc(version + challenge, size, sessionId);
    Assoc(version, challenge, size + sessionId);
    PrintOne(TLS_CHACHA20_POLY1305_SHA256);
    assert PrintU16s([TLS_AES_128_GCM_SHA256, TLS_CHACHA20_POLY1305_SHA256]) == c0 + c1;
    Assoc(start, ToBE(4, 2), c0 + c1);
    assert [1, 0] == [1] + [0];
    Assoc(start + ciphers + [1, 0], ToBE(|extensions|, 2), extensions);
    Assoc(start + ciphers, [1, 0], block);
    Assoc(start, ciphers, [1, 0] + block);
  }

  /** What later messages are checked against after such a ClientHello. */
  function BuiltState(sessionId: bytes, mask: Mask): ClientState {
    ClientState(
      [TLS_AES_128_GCM_SHA256, TLS_CHACHA20_POLY1305_SHA256], AcceptedSchemes(mask), [GROUP_X25519], sessionId)
  }

  lemma SixExtensions(items: seq<Item>)
    requires |items| == 6
    requires items[0].kind == EXT_SERVER_NAME && items[1].kind == EXT_SUPPORTED_GROUPS
    requires items[2].kind == EXT_SIGNATURE_ALGORITHMS && items[3].kind == EXT_SIGNATURE_ALGORITHMS_CERT
    requires items[4].kind == EXT_SUPPORTED_VERSIONS && items[5].kind == EXT_KEY_SHARE
    ensures Distinct(items)
    ensures REQUIRED <= Dict(items).Keys && FORBIDDEN !! Dict(items).Keys
    ensures Dict(items)[EXT_SERVER_NAME] == items[0].data
    ensures Dict(items)[EXT_SIGNATURE_ALGORITHMS] == items[2].data
    ensures Dict(items)[EXT_SUPPORTED_VERSIONS] == items[4].data
    ensures Dict(items)[EXT_KEY_SHARE] == items[5].data
  {
    hide Dict;
    assert Distinct(items);
    DictLookup(items, 0);
    DictLookup(items, 2);
    DictLookup(items, 4);
    DictLookup(items, 5);
    forall k | k in Dict(items) ensures k !in FORBIDDEN {
      DictKeys(items, k);
      var i :| 0 <= i < 6 && items[i].kind == k;
    }
  }

  lemma BuiltHelloWellFormed(domain: string, challenge: bytes, publicKey: bytes, sessionId: bytes, mask: Mask)
    requires Buildable(domain, challenge, publicKey, sessionId)
    ensures var h := BuiltHello(domain, challenge, publicKey, sessionId, mask);
            WellFormedClientHello(h, domain, challenge) && WellFormedOpening(h.opening)
  {
    hide IsCanonicalDomain, Encoded, ToBE, PrintU16s, AcceptedSchemes, PrintItem, BuildExtensions, ServerName,
         PrintItems, Vector, Dict, Distinct;
    BuiltExtensions(domain, publicKey, mask);
    SixExtensions(BuiltItems(domain, publicKey, mask));
    AcceptedSchemesTable(mask);
    PrintOneItem(Item(GROUP_X25519, publicKey));
    assert Distinct([Item(GROUP_X25519, publicKey)]) by {
      SingletonDistinct(Item(GROUP_X25519, publicKey));
    }
    assert WellFormedShares([Item(GROUP_X25519, publicKey)]);
  }

  lemma SingletonDistinct(item: Item)
    ensures Distinct([item])
  {
  }

  lemma BuiltIsPrinted(domain: string, challenge: bytes, publicKey: bytes, sessionId: bytes, mask: Mask)
    requires Buildable(domain, challenge, publicKey, sessionId)
    requires WellFormedOpening(BuiltHello(domain, challenge, publicKey, sessionId, mask).opening)
    ensures var o := BuiltHello(domain, challenge, publicKey, sessionId, mask).opening;
            BuildClientHello(domain, challenge, publicKey, sessionId, mask)
            == Some(Handshake(CLIENT_HELLO, OpeningBody(o)))
  {
    var o := BuiltHello(domain, challenge, publicKey, sessionId, mask).opening;
    hide IsCanonicalDomain, ToBE, OpeningBody, BuildBody, BuildExtensions, PrintItems, BuiltItems;
    BuiltExtensions(domain, publicKey, mask);
    BuiltBody(challenge, sessionId, o.extensions);
    SmallConstants();
    Assoc([CLIENT_HELLO], ToBE(|OpeningBody(o)|, 3), OpeningBody(o));
  }

  /** The ClientHello that is sent is well formed for its claim: the parser accepts it and recovers the
      two ciphers, X25519 alone, the session id and exactly the schemes of the mask, in table order. */
  lemma BuiltClientHelloParses(domain: string, challenge: bytes, publicKey: bytes, sessionId: bytes, mask: Mask,
                               h: ClientHello)
    requires Buildable(domain, challenge, publicKey, sessionId)
    requires h == BuiltHello(domain, challenge, publicKey, sessionId, mask)
    ensures WellFormedOpening(h.opening)
    ensures BuildClientHello(domain, challenge, publicKey, sessionId, mask)
            == Some(Handshake(CLIENT_HELLO, OpeningBody(h.opening)))
    ensures DecodeClientHello(OpeningBody(h.opening), domain, challenge) == Some(h)
    ensures StateOf(h) == BuiltState(sessionId, mask)
  {
    hide IsCanonicalDomain, AcceptedSchemes, OpeningBody, DecodeClientHello, BuildClientHello, Handshake,
         BuiltItems, WellFormedClientHello, WellFormedOpening;
    BuiltHelloWellFormed(domain, challenge, publicKey, sessionId, mask);
    BuiltIsPrinted(domain, challenge, publicKey, sessionId, mask);
    DecodeClientHelloPrinted(h, domain, challenge);
  }
}
