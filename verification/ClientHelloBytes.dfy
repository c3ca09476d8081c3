/** The ClientHello as it goes over the wire: every byte, whatever printers made it. */
module ClientHelloBytes {
  import opened Bytes
  import opened Wire
  import opened Domain
  import opened Signatures
  import opened Messages
  import opened Protocol
  import opened ClientHelloBuilder

  // ---------- the bytes that are sent ----------

  const SENT_CERTIFICATE_SCHEMES: bytes := [
    0, 24, 4, 3, 5, 3, 6, 3, 8, 4, 8, 5, 8, 6, 8, 9, 8, 10, 8, 11, 4, 1, 5, 1, 6, 1
  ]

  function SentSchemes(mask: Mask): bytes {
    (if mask % 2 == 1 then [4, 3] else []) + (if mask / 2 % 2 == 1 then [8, 4] else [])
    + (if mask / 4 == 1 then [8, 9] else [])
  }

  /** The six extensions, byte by byte. */
  function SentExtensions(host: bytes, schemes: bytes, publicKey: bytes): bytes
    requires |host| <= 253 && |schemes| <= 6
  {
    [0, 0] + U16(|host| + 5) + U16(|host| + 3) + [0] + U16(|host|) + host
    + [0, 10, 0, 4, 0, 2, 0, 29]
    + [0, 13, 0, |schemes| + 2, 0, |schemes|] + schemes
    + [0, 50, 0, 26] + SENT_CERTIFICATE_SCHEMES
    + [0, 43, 0, 3, 2, 3, 4]
    + [0, 51, 0, 38, 0, 36, 0, 29, 0, 32] + publicKey
  }

  lemma {:induction false} PrintedCodes(values: seq<u16>, i: nat)
    requires i < |values|
    ensures PrintU16s(values)[2 * i] == values[i] / 256 && PrintU16s(values)[2 * i + 1] == values[i] % 256
  {
    TwoBytes(values[0]);
    hide ToBE;
    if i > 0 {
      PrintedCodes(values[1..], i - 1);
    }
  }

  lemma CertificateSchemesSpelledOut()
    ensures U16(24) + PrintU16s(CERTIFICATE_SCHEMES) == SENT_CERTIFICATE_SCHEMES
  {
    var printed := PrintU16s(CERTIFICATE_SCHEMES);
    hide PrintU16s;
    forall i | 0 <= i < 12
      ensures printed[2 * i] == SENT_CERTIFICATE_SCHEMES[2 * i + 2]
      ensures printed[2 * i + 1] == SENT_CERTIFICATE_SCHEMES[2 * i + 3]
    {
      PrintedCodes(CERTIFICATE_SCHEMES, i);
    }
    forall k | 0 <= k < 24 ensures printed[k] == SENT_CERTIFICATE_SCHEMES[k + 2] {
      assert k == 2 * (k / 2) || k == 2 * (k / 2) + 1;
    }
  }

  lemma {:induction false} PrintU16sAppend(a: seq<u16>, b: seq<u16>)
    ensures PrintU16s(a + b) == PrintU16s(a) + PrintU16s(b)
  {
    hide ToBE;
    if a == [] {
      AppendNothing(b);
      AppendNothing(PrintU16s(b));
    } else {
      PrintU16sAppend(a[1..], b);
      assert (a + b)[1..] == a[1..] + b;
      Assoc(ToBE(a[0], 2), PrintU16s(a[1..]), PrintU16s(b));
    }
  }

  lemma OneCode(present: bool, code: u16)
    ensures PrintU16s(if present then [code] else []) == if present then [code / 256, code % 256] else []
  {
    PrintOne(code);
    TwoBytes(code);
  }

  lemma SchemesSpelledOut(mask: Mask)
    ensures PrintU16s(AcceptedSchemes(mask)) == SentSchemes(mask) && |SentSchemes(mask)| <= 6
  {
    AcceptedSchemesTable(mask);
    hide PrintU16s, AcceptedSchemes;
    var x := if mask % 2 == 1 then [ECDSA_SECP256R1_SHA256] else [];
    var y := if mask / 2 % 2 == 1 then [RSA_PSS_RSAE_SHA256] else [];
    var z := if mask / 4 == 1 then [RSA_PSS_PSS_SHA256] else [];
    PrintU16sAppend(x + y, z);
    PrintU16sAppend(x, y);
    OneCode(mask % 2 == 1, ECDSA_SECP256R1_SHA256);
    OneCode(mask / 2 % 2 == 1, RSA_PSS_RSAE_SHA256);
    OneCode(mask / 4 == 1, RSA_PSS_PSS_SHA256);
  }

  lemma ExtensionsSpelledOut(domain: string, publicKey: bytes, mask: Mask)
    requires IsCanonicalDomain(domain) && |publicKey| == 32
    ensures |SentSchemes(mask)| <= 6
    ensures BuildExtensions(domain, publicKey, mask) == SentExtensions(Encoded(domain), SentSchemes(mask), publicKey)
  {
    hide IsCanonicalDomain, Encoded, PrintU16s, AcceptedSchemes, SentSchemes, ToBE;
    SchemesSpelledOut(mask);
    CertificateSchemesSpelledOut();
    AllTwoBytes();
    var host, schemes, sent := Encoded(domain), SentSchemes(mask), U16(24) + PrintU16s(CERTIFICATE_SCHEMES);
    var serverName := ServerNameEntry(domain);
    assert Extension(EXT_SERVER_NAME, ToBE(|serverName|, 2) + serverName)
        == [0, 0] + U16(|host| + 5) + U16(|host| + 3) + [0] + U16(|host|) + host;
    assert Extension(EXT_SUPPORTED_GROUPS, [0, 2] + ToBE(GROUP_X25519, 2)) == [0, 10, 0, 4, 0, 2, 0, 29];
    assert Extension(EXT_SIGNATURE_ALGORITHMS, ToBE(|schemes|, 2) + schemes)
        == [0, 13, 0, |schemes| + 2, 0, |schemes|] + schemes;
    assert Extension(EXT_SIGNATURE_ALGORITHMS_CERT, sent) == [0, 50, 0, 26] + sent;
    assert Extension(EXT_SUPPORTED_VERSIONS, [2] + ToBE(TLS_1_3, 2)) == [0, 43, 0, 3, 2, 3, 4];
    var keyShare := ToBE(GROUP_X25519, 2) + ToBE(32, 2) + publicKey;
    assert Extension(EXT_KEY_SHARE, ToBE(36, 2) + keyShare) == [0, 51, 0, 38, 0, 36, 0, 29, 0, 32] + publicKey;
    hide Extension;
    SixParts([0, 0] + U16(|host| + 5) + U16(|host| + 3) + [0] + U16(|host|) + host, [0, 10, 0, 4, 0, 2, 0, 29],
             [0, 13, 0, |schemes| + 2, 0, |schemes|], schemes, [0, 50, 0, 26], sent, [0, 43, 0, 3, 2, 3, 4],
             [0, 51, 0, 38, 0, 36, 0, 29, 0, 32], publicKey);
  }

  lemma SixParts(a: bytes, b: bytes, c1: bytes, c2: bytes, d1: bytes, d2: bytes, e: bytes, f1: bytes, f2: bytes)
    ensures a + b + (c1 + c2) + (d1 + d2) + e + (f1 + f2) == a + b + c1 + c2 + d1 + d2 + e + f1 + f2
  {
    Assoc(a + b, c1, c2);
    Assoc(a + b + c1 + c2, d1, d2);
    Assoc(a + b + c1 + c2 + d1 + d2 + e, f1, f2);
  }

  lemma AllTwoBytes()
    ensures forall n :: 0 <= n < 0x1_0000 ==> ToBE(n, 2) == U16(n)
  {
    forall n | 0 <= n < 0x1_0000 ensures ToBE(n, 2) == U16(n) {
      TwoBytes(n);
    }
  }

  lemma BodySpelledOut(challenge: bytes, sessionId: bytes, extensions: bytes)
    requires |challenge| == 32 && |sessionId| <= 32 && |extensions| <= 361
    ensures BuildBody(challenge, sessionId, extensions)
            == [3, 3] + challenge + [|sessionId|] + sessionId + [0, 4, 0x13, 1, 0x13, 3, 1, 0] + U16(|extensions|)
               + extensions
  {
    FixedCodes();
    TwoBytes(|extensions|);
    hide ToBE, U16;
    var ciphers := [0x13, 1] + [0x13, 3];
    var front := [3, 3] + challenge + [|sessionId|] + sessionId;
    Assoc(front, [0, 4], ciphers);
    Assoc(front, [0, 4] + ciphers, [1, 0]);
    assert [0, 4] + ciphers + [1, 0] == [0, 4, 0x13, 1, 0x13, 3, 1, 0];
  }

  lemma FixedCodes()
    ensures ToBE(TLS_1_2, 2) == [3, 3] && ToBE(4, 2) == [0, 4]
    ensures ToBE(TLS_AES_128_GCM_SHA256, 2) == [0x13, 1] && ToBE(TLS_CHACHA20_POLY1305_SHA256, 2) == [0x13, 3]
  {
    TwoBytes(TLS_1_2);
    TwoBytes(4);
    TwoBytes(TLS_AES_128_GCM_SHA256);
    TwoBytes(TLS_CHACHA20_POLY1305_SHA256);
    hide ToBE;
  }

  /** The ClientHello, byte by byte: sections 4.1.2, 4.2.1, 4.2.3, 4.2.7 and 4.2.8 of RFC 8446 and section 3 of
      RFC 6066. */
  lemma ClientHelloSpelledOut(domain: string, challenge: bytes, publicKey: bytes, sessionId: bytes, mask: Mask,
                              host: bytes, extensions: bytes)
    requires Buildable(domain, challenge, publicKey, sessionId) && |SentSchemes(mask)| <= 6
    requires |host| == |domain| <= 253 && forall i :: 0 <= i < |domain| ==> host[i] == domain[i] as int
    requires extensions == SentExtensions(host, SentSchemes(mask), publicKey)
    ensures |extensions| <= 361
    ensures BuildClientHello(domain, challenge, publicKey, sessionId, mask)
            == Some([1, 0] + U16(45 + |sessionId| + |extensions|)
                    + ([3, 3] + challenge + [|sessionId|] + sessionId + [0, 4, 0x13, 1, 0x13, 3, 1, 0]
                       + U16(|extensions|) + extensions))
  {
    EncodedBytes(domain);
    assert host == Encoded(domain);
    ExtensionsSpelledOut(domain, publicKey, mask);
    hide IsCanonicalDomain, ToBE, BuildExtensions, SentExtensions, SentSchemes, Encoded;
    BodySpelledOut(challenge, sessionId, extensions);
    var body := BuildBody(challenge, sessionId, extensions);
    hide BuildBody;
    LengthBytes(|body|);
    hide U16;
  }

  lemma LengthBytes(n: nat)
    requires n < 0x1_0000
    ensures [CLIENT_HELLO] + ToBE(n, 3) == [1, 0] + U16(n)
  {
    ThreeBytes(n);
  }

  lemma VectorBytes(data: bytes)
    ensures |data| < 0x1_0000 ==> Vector(2, data) == U16(|data|) + data
    ensures |data| < 0x100 ==> Vector(1, data) == [|data|] + data
  {
    if |data| < 0x1_0000 {
      TwoBytes(|data|);
    }
    SmallConstants();
  }

  lemma ServerNameBytes(host: bytes)
    requires |host| <= 253
    ensures ServerName(host) == U16(|host| + 3) + ([0] + (U16(|host|) + host))
  {
    VectorBytes(host);
    SmallConstants();
    hide ToBE, Vector, U16;
    VectorBytes([0] + (U16(|host|) + host));
  }

  lemma ShareBytes(publicKey: bytes)
    requires |publicKey| == 32
    ensures Vector(2, PrintItem(Item(GROUP_X25519, publicKey))) == [0, 36, 0, 0x1D, 0, 32] + publicKey
  {
    VectorBytes(publicKey);
    TwoBytes(GROUP_X25519);
    hide ToBE, Vector;
    VectorBytes(PrintItem(Item(GROUP_X25519, publicKey)));
  }

  lemma CodeBytes()
    ensures Vector(2, PrintU16s([GROUP_X25519])) == [0, 2, 0, 0x1D]
    ensures Vector(1, PrintU16s([TLS_1_3])) == [2, 3, 4]
  {
    PrintOne(GROUP_X25519);
    PrintOne(TLS_1_3);
    TwoBytes(GROUP_X25519);
    TwoBytes(TLS_1_3);
    hide ToBE, Vector, PrintU16s;
    VectorBytes([0, 0x1D]);
    VectorBytes([3, 4]);
  }

  /** The extensions as a dictionary of bytes. */
  function SentMap(host: bytes, schemes: bytes, publicKey: bytes): map<u16, bytes>
    requires |host| <= 253 && |schemes| <= 6
  {
    map[
      0 := U16(|host| + 3) + ([0] + (U16(|host|) + host)),
      10 := [0, 2, 0, 0x1D],
      13 := U16(|schemes|) + schemes,
      50 := SENT_CERTIFICATE_SCHEMES,
      43 := [2, 3, 4],
      51 := [0, 36, 0, 0x1D, 0, 32] + publicKey
    ]
  }

  lemma DictIsSentMap(domain: string, publicKey: bytes, mask: Mask, items: seq<Item>)
    requires IsCanonicalDomain(domain) && |publicKey| == 32 && items == BuiltItems(domain, publicKey, mask)
    ensures |SentSchemes(mask)| <= 6
    ensures Dict(items) == SentMap(Encoded(domain), SentSchemes(mask), publicKey)
  {
    SchemesSpelledOut(mask);
    CertificateSchemesSpelledOut();
    CodeBytes();
    hide IsCanonicalDomain, AcceptedSchemes, ToBE, PrintU16s, Encoded, SentSchemes, SENT_CERTIFICATE_SCHEMES, Vector,
         ServerName, PrintItem, Dict, U16;
    ServerNameBytes(Encoded(domain));
    ShareBytes(publicKey);
    VectorBytes(SentSchemes(mask));
    VectorBytes(PrintU16s(CERTIFICATE_SCHEMES));
    SixEntries(items);
  }

  /** The dictionary that a receiver decodes from the sent bytes. The one group offered is the group of the one
      key share, as section 4.2.8 of RFC 8446 demands. */
  lemma SentDictionary(domain: string, challenge: bytes, publicKey: bytes, sessionId: bytes, mask: Mask)
    returns (body: bytes, o: Opening)
    requires Buildable(domain, challenge, publicKey, sessionId)
    ensures |body| < 0x100_0000
    ensures BuildClientHello(domain, challenge, publicKey, sessionId, mask) == Some(Handshake(1, body))
    ensures DecodeOpening(body) == Some(o) && o.random == challenge && o.sessionId == sessionId
    ensures o.ciphers == [0x1301, 0x1303]
    ensures |SentSchemes(mask)| <= 6
    ensures Dict(o.extensions) == SentMap(Encoded(domain), SentSchemes(mask), publicKey)
  {
    var h := BuiltHello(domain, challenge, publicKey, sessionId, mask);
    o := h.opening;
    hide IsCanonicalDomain, OpeningBody, DecodeOpening, BuildClientHello, Handshake, DecodeClientHello,
         WellFormedOpening, BuiltItems, AcceptedSchemes, Encoded, Dict, SentSchemes, SentMap;
    BuiltClientHelloParses(domain, challenge, publicKey, sessionId, mask, h);
    body := OpeningBody(o);
    DecodeOpeningPrinted(o);
    DictIsSentMap(domain, publicKey, mask, o.extensions);
  }

  lemma SixEntries(items: seq<Item>)
    requires |items| == 6
    requires items[0].kind == 0 && items[1].kind == 10 && items[2].kind == 13 && items[3].kind == 50
    requires items[4].kind == 43 && items[5].kind == 51
    ensures Dict(items).Keys == {0, 10, 13, 43, 50, 51}
    ensures Dict(items)[0] == items[0].data && Dict(items)[10] == items[1].data && Dict(items)[13] == items[2].data
    ensures Dict(items)[50] == items[3].data && Dict(items)[43] == items[4].data && Dict(items)[51] == items[5].data
  {
    hide Dict;
    forall k: u16 ensures k in Dict(items) <==> k in {0, 10, 13, 43, 50, 51} {
      DictKeys(items, k);
    }
    assert Distinct(items);
    hide Distinct;
    forall i | 0 <= i < 6 ensures items[i].kind in Dict(items) && Dict(items)[items[i].kind] == items[i].data {
      DictLookup(items, i);
    }
  }
}
