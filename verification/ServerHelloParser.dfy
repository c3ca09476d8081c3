/** The second, index-based ServerHello parser (tls13.py), proved to agree with the cursor-based one. */
module ServerHelloParser {
  import opened Bytes
  import opened Wire
  import opened Signatures
  import opened Messages
  import opened Protocol
  import opened ClientHelloBuilder

  /** A complete ServerHello message as `parse_proof` reads it, against the ClientHello that was sent. */
  function ServerHelloOf(message: bytes, sessionId: bytes, mask: Mask): Option<ServerHello> {
    var (body, rest) :- TakeHandshake(message, SERVER_HELLO, MAX_SERVER_HELLO);
    if rest != [] then None else DecodeServerHello(body, BuiltState(sessionId, mask))
  }

  /** The cipher suite and the X25519 share that the handshake continues with. */
  function Selected(h: Option<ServerHello>): Option<(u16, bytes)> {
    match h
    case None => None
    case Some(hello) => Some((hello.cipher, hello.exchange))
  }

  // ---------- sizes ----------

  lemma ThirdKind(items: seq<Item>, a: u16, b: u16)
    requires Distinct(items) && |items| >= 3
    ensures exists i :: 0 <= i < |items| && items[i].kind != a && items[i].kind != b
  {
    assert items[0].kind != items[1].kind && items[0].kind != items[2].kind && items[1].kind != items[2].kind;
  }

  lemma TwoExtensions(items: seq<Item>)
    requires Distinct(items) && Dict(items).Keys == {EXT_SUPPORTED_VERSIONS, EXT_KEY_SHARE}
    ensures |items| == 2
    ensures |PrintItems(items)| == 8 + |Dict(items)[EXT_SUPPORTED_VERSIONS]| + |Dict(items)[EXT_KEY_SHARE]|
  {
    hide PrintItem, Dict;
    var m := Dict(items);
    DictKeys(items, EXT_SUPPORTED_VERSIONS);
    DictKeys(items, EXT_KEY_SHARE);
    forall i | 0 <= i < |items| ensures items[i].kind in m.Keys && m[items[i].kind] == items[i].data {
      DictLookup(items, i);
    }
    if |items| >= 3 {
      ThirdKind(items, EXT_SUPPORTED_VERSIONS, EXT_KEY_SHARE);
      assert false;
    }
    assert items == [items[0]] + [items[1]];
    PrintItemsSnoc([items[0]], items[1]);
    PrintOneItem(items[0]);
  }

  /** Every ServerHello accepted after such a ClientHello has one length: 90 bytes and the session id. */
  lemma ServerHelloLength(body: bytes, sessionId: bytes, mask: Mask)
    requires DecodeServerHello(body, BuiltState(sessionId, mask)).Some?
    ensures |body| + 4 == 90 + |sessionId| && |sessionId| <= 32
  {
    hide DecodeServerHello, Dict, Distinct, ToBE, PrintItems;
    DecodeServerHelloSound(body, BuiltState(sessionId, mask));
    TwoExtensions(DecodeServerHello(body, BuiltState(sessionId, mask)).value.extensions);
  }

  // ---------- the decoders by index ----------

  lemma TakeVectorAll(s: bytes, width: nat)
    ensures (TakeVector(s, width).Some? && TakeVector(s, width).value.1 == [])
            <==> |s| >= width && BE(s[..width]) == |s| - width
    ensures |s| >= width && BE(s[..width]) == |s| - width ==> TakeVector(s, width) == Some((s[width..], []))
  {
    hide BE, ToBE;
    if |s| >= width && BE(s[..width]) == |s| - width {
      TakeAll(s[width..]);
    }
  }

  lemma TakeUintIsConstant(s: bytes, n: nat, width: nat)
    requires n < Pow256(width) && |s| >= width
    ensures BE(s[..width]) == n <==> s[..width] == ToBE(n, width)
  {
    ToBEInverse(s[..width]);
  }

  lemma HelloStartByIndex(body: bytes)
    requires |body| >= 35 && body[..2] == ToBE(TLS_1_2, 2)
    ensures var n: int := body[34];
            TakeHelloStart(body) ==
            if n <= 32 && |body| >= 35 + n then Some((body[2..34], body[35..35 + n], body[35 + n..])) else None
  {
    hide ToBE, Vector, HelloStart;
    var n: int := body[34];
    TakeUintIsConstant(body, TLS_1_2, 2);
    assert body[2..][..32] == body[2..34] && body[2..][32..] == body[34..];
    assert BE(body[34..][..1]) == n by {
      assert body[34..][..1] == [n];
      assert BE([]) == 0;
    }
    assert body[34..][1..] == body[35..];
    if |body| >= 35 + n {
      assert body[35..][..n] == body[35..35 + n] && body[35..][n..] == body[35 + n..];
    }
  }

  // ---------- the program ----------

  lemma ItemHeadTruncated(encoded: bytes, p: nat)
    requires p < |encoded| < p + 4
    ensures DecodeItems(encoded[p..]) == None
  {
  }

  lemma ItemHead(encoded: bytes, p: nat)
    requires p + 4 <= |encoded|
    ensures BE(encoded[p..p + 2]) < 0x1_0000 && BE(encoded[p + 2..p + 4]) < 0x1_0000
    ensures TakeUint(encoded[p..], 2) == Some((BE(encoded[p..p + 2]), encoded[p + 2..]))
    ensures TakeUint(encoded[p + 2..], 2) == Some((BE(encoded[p + 2..p + 4]), encoded[p + 4..]))
  {
    hide BE, ToBE;
    assert encoded[p..][..2] == encoded[p..p + 2] && encoded[p..][2..] == encoded[p + 2..];
    assert encoded[p + 2..][..2] == encoded[p + 2..p + 4] && encoded[p + 2..][2..] == encoded[p + 4..];
  }

  /** One turn of the loop: the item at position `p` and where the next one starts. */
  method ParseItem(encoded: bytes, p: nat) returns (r: Option<(Item, nat)>)
    requires p < |encoded|
    ensures r.None? ==> DecodeItems(encoded[p..]).None?
    ensures r.Some? ==> p < r.value.1 <= |encoded|
                        && DecodeItems(encoded[p..]) == After([r.value.0], DecodeItems(encoded[r.value.1..]))
  {
    hide TakeUint, BE;
    var position := p;
    if |encoded| - position < 4 {
      ItemHeadTruncated(encoded, p);
      return None;
    }
    var kind := BE(encoded[position..position + 2]);
    var size := BE(encoded[position + 2..position + 4]);
    ItemHead(encoded, p);
    position := position + 4;
    if |encoded| - position < size {
      return None;
    }
    ghost var rest := encoded[position..];
    assert rest[..size] == encoded[position..position + size] && rest[size..] == encoded[position + size..];
    return Some((Item(kind, encoded[position..position + size]), position + size));
  }

  /** `_parse_extensions`: the same dictionary as `_extensions` fills, on every input. */
  method ParseExtensionList(encoded: bytes) returns (r: Option<map<u16, bytes>>)
    ensures r == DictOf(DecodeItems(encoded))
  {
    var position := 0;
    var result: map<u16, bytes> := map[];
    ghost var whole := DecodeItems(encoded);
    ghost var done: seq<Item> := [];
    AfterNothing(whole);
    assert encoded[0..] == encoded;
    while position < |encoded|
      invariant 0 <= position <= |encoded|
      invariant Distinct(done) && result == Dict(done)
      invariant whole == After(done, DecodeItems(encoded[position..]))
    {
      var step :- ParseItem(encoded, position);
      var (item, next) := step;
      AfterOne(done, item, DecodeItems(encoded[next..]));
      if item.kind in result {
        RepeatedKind(done, item, DecodeItems(encoded[next..]));
        return None;
      }
      DictAppend(done, item);
      result := result[item.kind := item.data];
      position := next;
      done := done + [item];
    }
    AfterAll(done);
    return Some(result);
  }

  lemma ByteAt(s: bytes, i: nat)
    requires i < |s|
    ensures TakeUint(s[i..], 1) == Some((s[i] as nat, s[i + 1..]))
  {
    assert s[i..][..1] == [s[i]] && s[i..][1..] == s[i + 1..];
    assert BE([]) == 0;
  }

  lemma UintAt(s: bytes, i: nat, width: nat)
    requires i + width <= |s|
    ensures TakeUint(s[i..], width) == Some((BE(s[i..i + width]), s[i + width..]))
  {
    hide BE, ToBE;
    assert s[i..][..width] == s[i..i + width] && s[i..][width..] == s[i + width..];
  }

  /** A message is one framed ServerHello exactly when its header says so; the size limit never binds. */
  lemma FramingByIndex(message: bytes, sessionId: bytes, mask: Mask)
    ensures ServerHelloOf(message, sessionId, mask) ==
            if |message| >= 4 && message[0] == SERVER_HELLO && BE(message[1..4]) == |message| - 4
            then DecodeServerHello(message[4..], BuiltState(sessionId, mask)) else None
  {
    hide TakeUint, BE, ToBE, DecodeServerHello, BuiltState, Handshake;
    if |message| >= 1 {
      ByteAt(message, 0);
      assert message[0..] == message;
      if |message| >= 4 {
        UintAt(message, 1, 3);
        if BE(message[1..4]) == |message| - 4 {
          TakeAll(message[4..]);
          if DecodeServerHello(message[4..], BuiltState(sessionId, mask)).Some? {
            ServerHelloLength(message[4..], sessionId, mask);
          }
        }
      }
    }
  }

  lemma ExtensionsByIndex(s: bytes)
    requires |s| >= 2
    ensures DictOf(DecodeExtensions(s)) == if BE(s[..2]) == |s| - 2 then DictOf(DecodeItems(s[2..])) else None
  {
    hide TakeVector, BE, DecodeItems, Distinct, Dict;
    TakeVectorAll(s, 2);
  }

  lemma X25519ShareByIndex(s: bytes, sessionId: bytes, mask: Mask)
    ensures var share := DecodeShare(s);
            var accepted := share.Some? && ValidKeyShare(share.value.kind, share.value.data)
                            && share.value.kind in BuiltState(sessionId, mask).keyShareGroups;
            && (accepted <==> |s| >= 4 && BE(s[..2]) == GROUP_X25519 && BE(s[2..4]) == 32 && |s| == 36)
            && (accepted ==> share.value.data == s[4..])
  {
    hide BE, ToBE, TakeUint, Vector, AcceptedSchemes;
    if |s| >= 2 {
      UintAt(s, 0, 2);
      assert s[0..] == s;
      if |s| >= 4 {
        UintAt(s, 2, 2);
        TakeAll(s[4..]);
      }
    }
  }

  /** The checks on the extension dictionary: the X25519 key they select. */
  method ParseServerShare(extensions: map<u16, bytes>, ghost sessionId: bytes, ghost mask: Mask)
    returns (r: Option<bytes>)
    ensures r == match DecodeServerShare(extensions, BuiltState(sessionId, mask))
                 case None => None
                 case Some(share) => Some(share.data)
  {
    hide BE, ToBE, DecodeShare, ValidKeyShare, AcceptedSchemes;
    if extensions.Keys != {EXT_SUPPORTED_VERSIONS, EXT_KEY_SHARE} {
      return None;
    }
    if extensions[EXT_SUPPORTED_VERSIONS] != ToBE(TLS_1_3, 2) {
      return None;
    }
    var keyShare := extensions[EXT_KEY_SHARE];
    X25519ShareByIndex(keyShare, sessionId, mask);
    if |keyShare| < 4 || BE(keyShare[..2]) != GROUP_X25519 {
      return None;
    }
    var keySize := BE(keyShare[2..4]);
    if keySize != 32 || |keyShare| != keySize + 4 {
      return None;
    }
    return Some(keyShare[4..]);
  }

  /** The decoder on a body whose fixed part is complete, field by field at position `p` after the session id. */
  lemma BodyByIndex(body: bytes, p: nat, sessionId: bytes, mask: Mask)
    requires 35 <= p && p + 5 <= |body| && body[..2] == ToBE(TLS_1_2, 2) && body[34] as int == p - 35 <= 32
    ensures Selected(DecodeServerHello(body, BuiltState(sessionId, mask))) ==
            var cipher, extensions := BE(body[p..p + 2]), DictOf(DecodeItems(body[p + 5..]));
            if || body[2..34] == HELLO_RETRY_REQUEST_RANDOM || body[35..p] != sessionId
               || cipher !in CIPHERS || body[p + 2] != 0 || BE(body[p + 3..p + 5]) != |body| - (p + 5)
               || extensions.None? || DecodeServerShare(extensions.value, BuiltState(sessionId, mask)).None?
            then None
            else Some((cipher, DecodeServerShare(extensions.value, BuiltState(sessionId, mask)).value.data))
  {
    hide TakeUint, TakeVector, Take, BE, ToBE, DecodeExtensions, DecodeServerShare, DecodeItems, Distinct, Dict,
         AcceptedSchemes;
    HelloStartByIndex(body);
    hide TakeHelloStart, HelloStart;
    UintAt(body, p, 2);
    ByteAt(body, p + 2);
    ExtensionsByIndex(body[p + 3..]);
    assert body[p + 3..][..2] == body[p + 3..p + 5] && body[p + 3..][2..] == body[p + 5..];
  }

  lemma SessionIdTooLong(body: bytes, sessionId: bytes, mask: Mask)
    requires |body| >= 38 && body[..2] == ToBE(TLS_1_2, 2)
    requires body[34] > 32 || |body| < 35 + body[34] as int + 5
    ensures DecodeServerHello(body, BuiltState(sessionId, mask)) == None
  {
    hide TakeUint, BE, ToBE, DecodeExtensions, DecodeServerShare, Dict, AcceptedSchemes;
    HelloStartByIndex(body);
    hide TakeHelloStart, HelloStart;
    TooShortForExtensions();
  }

  lemma TooShortForExtensions()
    ensures forall s: bytes :: |s| < 2 ==> DecodeExtensions(s) == None
  {
  }

  method ParseServerHelloBody(body: bytes, expectedSessionId: bytes, ghost mask: Mask) returns (r: Option<(u16, bytes)>)
    ensures r == Selected(DecodeServerHello(body, BuiltState(expectedSessionId, mask)))
  {
    hide BE, ToBE, DecodeServerHello, DecodeServerShare, DecodeItems, DictOf, BuiltState;
    if |body| < 38 || body[..2] != ToBE(TLS_1_2, 2) {
      ShortServerHello(body, expectedSessionId, mask);
      return None;
    }
    var sessionSize: int := body[34];
    if sessionSize <= 32 && |body| - 35 >= sessionSize + 5 {
      BodyByIndex(body, 35 + sessionSize, expectedSessionId, mask);
    } else {
      SessionIdTooLong(body, expectedSessionId, mask);
    }
    if body[2..34] == HELLO_RETRY_REQUEST_RANDOM {
      return None;
    }
    var position := 35;
    if sessionSize > 32 || |body| - position < sessionSize + 5 {
      return None;
    }
    if body[position..position + sessionSize] != expectedSessionId {
      return None;
    }
    position := position + sessionSize;
    var cipherSuite := BE(body[position..position + 2]);
    position := position + 2;
    if cipherSuite !in CIPHERS {
      return None;
    }
    if body[position] != 0 {
      return None;
    }
    position := position + 1;
    var extensionSize := BE(body[position..position + 2]);
    position := position + 2;
    if |body| - position != extensionSize {
      return None;
    }
    var extensions :- ParseExtensionList(body[position..]);
    var key :- ParseServerShare(extensions, expectedSessionId, mask);
    return Some((cipherSuite, key));
  }

  lemma ServerHelloStarts(body: bytes, sessionId: bytes, mask: Mask)
    requires DecodeServerHello(body, BuiltState(sessionId, mask)).Some?
    ensures |body| >= 38 && body[..2] == ToBE(TLS_1_2, 2)
  {
    hide ToBE, Distinct, Dict, DecodeServerHello, ValidKeyShare, PrintItems, PrintItem, AcceptedSchemes;
    ServerHelloLength(body, sessionId, mask);
    DecodeServerHelloSound(body, BuiltState(sessionId, mask));
  }

  lemma ShortServerHello(body: bytes, sessionId: bytes, mask: Mask)
    requires |body| < 38 || body[..2] != ToBE(TLS_1_2, 2)
    ensures DecodeServerHello(body, BuiltState(sessionId, mask)) == None
  {
    hide ToBE, DecodeServerHello;
    if DecodeServerHello(body, BuiltState(sessionId, mask)).Some? {
      ServerHelloStarts(body, sessionId, mask);
      assert false;
    }
  }

  /** `parse_server_hello`: for every message, session id and mask it selects the same cipher and share as
      the proof parser would against the ClientHello that was sent, and refuses what that refuses. */
  method ParseServerHello(message: bytes, expectedSessionId: bytes, ghost mask: Mask) returns (r: Option<(u16, bytes)>)
    ensures r == Selected(ServerHelloOf(message, expectedSessionId, mask))
  {
    hide ServerHelloOf, DecodeServerHello, BuiltState, BE;
    FramingByIndex(message, expectedSessionId, mask);
    if |message| < 4 || message[0] != SERVER_HELLO {
      return None;
    }
    if BE(message[1..4]) != |message| - 4 {
      return None;
    }
    r := ParseServerHelloBody(message[4..], expectedSessionId, mask);
  }
}
