/** HKDF and the record nonce (tls13.py). HMAC stays uninterpreted: a parameter. */
module KeySchedule {
  import opened Bytes
  import opened Wire
  import opened Hashes

  type Hmac = (bytes, bytes) -> Digest

  const HASH_LENGTH := 32
  const MAX_OUTPUT := 255 * HASH_LENGTH

  // ---------- section 2.3 of RFC 5869 ----------

  /** T(i): the empty string, then HMAC over the previous block, the info and the block number. */
  function T(hmac: Hmac, secret: bytes, info: bytes, i: nat): (t: bytes)
    requires i <= 255
    ensures i > 0 ==> |t| == HASH_LENGTH
  {
    if i == 0 then [] else hmac(secret, T(hmac, secret, info, i - 1) + info + [i])
  }

  /** T(1) | T(2) | ... | T(n). */
  function Blocks(hmac: Hmac, secret: bytes, info: bytes, n: nat): (s: bytes)
    requires n <= 255
    ensures |s| == n * HASH_LENGTH
  {
    if n == 0 then [] else Blocks(hmac, secret, info, n - 1) + T(hmac, secret, info, n)
  }

  /** The output keying material: the first `length` bytes of all the blocks there are. */
  function Expand(hmac: Hmac, secret: bytes, info: bytes, length: nat): (r: Option<bytes>)
    ensures r.Some? <==> length <= MAX_OUTPUT
    ensures r.Some? ==> |r.value| == length
  {
    if length > MAX_OUTPUT then None else Some(Blocks(hmac, secret, info, 255)[..length])
  }

  lemma {:induction false} BlocksPrefix(hmac: Hmac, secret: bytes, info: bytes, n: nat, m: nat)
    requires n <= m <= 255
    ensures Blocks(hmac, secret, info, n) <= Blocks(hmac, secret, info, m)
  {
    if n < m {
      BlocksPrefix(hmac, secret, info, n, m - 1);
    }
  }

  /** `hkdf_expand`: it stops after the blocks it needs and never uses a block number above 255. */
  method HkdfExpand(hmac: Hmac, secret: bytes, info: bytes, length: nat) returns (r: Option<bytes>)
    ensures r == Expand(hmac, secret, info, length)
  {
    if length > MAX_OUTPUT {
      return None;
    }
    var output, previous: bytes := [], [];
    var counter := 1;
    while |output| < length
      invariant 1 <= counter <= 256 && |output| == (counter - 1) * HASH_LENGTH
      invariant previous == T(hmac, secret, info, counter - 1)
      invariant output == Blocks(hmac, secret, info, counter - 1)
      decreases 256 - counter
    {
      previous := hmac(secret, previous + info + [counter]);
      output := output + previous;
      counter := counter + 1;
    }
    BlocksPrefix(hmac, secret, info, counter - 1, 255);
    assert output[..length] == Blocks(hmac, secret, info, 255)[..length];
    return Some(output[..length]);
  }

  /** A shorter output is a prefix of every longer one. */
  lemma ShorterOutputIsPrefix(hmac: Hmac, secret: bytes, info: bytes, short: nat, long: nat)
    requires short <= long <= MAX_OUTPUT
    ensures Expand(hmac, secret, info, short).value == Expand(hmac, secret, info, long).value[..short]
  {
    hide Blocks;
  }

  /** RFC 5869 asks for N = ceil(L / HashLen) blocks: no more are needed. */
  lemma EnoughBlocks(hmac: Hmac, secret: bytes, info: bytes, length: nat, n: nat)
    requires length <= MAX_OUTPUT && n == (length + HASH_LENGTH - 1) / HASH_LENGTH
    ensures n <= 255 && length <= |Blocks(hmac, secret, info, n)|
    ensures Expand(hmac, secret, info, length) == Some(Blocks(hmac, secret, info, n)[..length])
  {
    BlocksPrefix(hmac, secret, info, n, 255);
    var a, b := Blocks(hmac, secret, info, n), Blocks(hmac, secret, info, 255);
    assert a[..length] == b[..length];
  }

  // ---------- section 7.1 of RFC 8446 ----------

  const LABEL_PREFIX := "tls13 "

  predicate ValidLabel(name: bytes, context: bytes, length: nat) {
    1 <= |name| <= 249 && |context| <= 255 && length <= 0xFFFF
  }

  /** The HkdfLabel structure. */
  function LabelInfo(name: bytes, context: bytes, length: nat): bytes
    requires ValidLabel(name, context, length)
  {
    var full := Text(LABEL_PREFIX) + name;
    ToBE(length, 2) + [|full|] + full + [|context|] + context
  }

  lemma LabelInfoParts(name: bytes, context: bytes, length: nat)
    requires ValidLabel(name, context, length)
    ensures TakeUint(LabelInfo(name, context, length), 2)
            == Some((length, Vector(1, Text(LABEL_PREFIX) + name) + Vector(1, context)))
  {
    hide TakeUint;
    SmallConstants();
    var full := Text(LABEL_PREFIX) + name;
    hide ToBE, Text;
    Assoc(ToBE(length, 2), [|full|], full);
    Assoc(ToBE(length, 2) + Vector(1, full), [|context|], context);
    Assoc(ToBE(length, 2), Vector(1, full), Vector(1, context));
    TakeUintPrinted(length, 2, Vector(1, full) + Vector(1, context));
  }

  /** Different lengths, labels or contexts never share an info string. */
  lemma LabelInfoInjective(name: bytes, context: bytes, length: nat, name2: bytes, context2: bytes, length2: nat)
    requires ValidLabel(name, context, length) && ValidLabel(name2, context2, length2)
    requires LabelInfo(name, context, length) == LabelInfo(name2, context2, length2)
    ensures name == name2 && context == context2 && length == length2
  {
    hide TakeUint, TakeVector, Vector, LabelInfo, Text;
    LabelInfoParts(name, context, length);
    LabelInfoParts(name2, context2, length2);
    var prefix := Text(LABEL_PREFIX);
    TakeVectorPrinted(1, prefix + name, Vector(1, context));
    TakeVectorPrinted(1, prefix + name2, Vector(1, context2));
    TakeVectorPrinted(1, context, []);
    TakeVectorPrinted(1, context2, []);
    AppendNothing(Vector(1, context));
    AppendNothing(Vector(1, context2));
    assert (prefix + name)[|prefix|..] == name && (prefix + name2)[|prefix|..] == name2;
  }

  function ExpandLabel(hmac: Hmac, secret: bytes, name: bytes, context: bytes, length: nat): (r: Option<bytes>)
    ensures r.Some? <==> ValidLabel(name, context, length) && length <= MAX_OUTPUT
    ensures r.Some? ==> |r.value| == length
  {
    if !ValidLabel(name, context, length) then None
    else Expand(hmac, secret, LabelInfo(name, context, length), length)
  }

  /** `derive_secret`. */
  function DeriveSecret(hmac: Hmac, sha256: Sha256, secret: bytes, name: string, transcript: bytes): bytes
    requires 1 <= |name| <= 249
  {
    ExpandLabel(hmac, secret, Text(name), sha256(transcript), HASH_LENGTH).value
  }

  /** `derive_server_handshake_keys` for a key of the cipher's length: the traffic key and IV. */
  function ServerHandshakeKeys(hmac: Hmac, sha256: Sha256, shared: bytes, transcript: bytes, keyLength: nat)
    : (keys: (bytes, bytes))
    requires keyLength <= MAX_OUTPUT
    ensures |keys.0| == keyLength && |keys.1| == 12
  {
    var zeroes: Digest := seq(32, _ => 0);
    var earlySecret := hmac(zeroes, zeroes);
    var derivedSecret := DeriveSecret(hmac, sha256, earlySecret, "derived", []);
    var handshakeSecret := hmac(derivedSecret, shared);
    var trafficSecret := DeriveSecret(hmac, sha256, handshakeSecret, "s hs traffic", transcript);
    (ExpandLabel(hmac, trafficSecret, Text("key"), [], keyLength).value,
     ExpandLabel(hmac, trafficSecret, Text("iv"), [], 12).value)
  }

  // ---------- the schedule on the wire ----------

  /** The blocks of section 2.3 of RFC 5869 read off the output: each is the HMAC of the one before it (nothing
      before the first), the info and its number. */
  lemma ExpandIsChained(hmac: Hmac, secret: bytes, info: bytes, i: nat)
    requires i < 255
    ensures var output := Expand(hmac, secret, info, 255 * 32).value;
            output[32 * i..][..32]
            == hmac(secret, (if i == 0 then [] else output[32 * (i - 1)..][..32]) + info + [i + 1])
  {
    BlockIsT(hmac, secret, info, i, 255);
    if i > 0 {
      BlockIsT(hmac, secret, info, i - 1, 255);
    }
    hide Blocks;
    var all := Blocks(hmac, secret, info, 255);
    assert all[..255 * 32] == all;
  }

  lemma {:induction false} BlockIsT(hmac: Hmac, secret: bytes, info: bytes, i: nat, n: nat)
    requires i < n <= 255
    ensures Blocks(hmac, secret, info, n)[32 * i..][..32] == T(hmac, secret, info, i + 1)
  {
    hide T;
    if i < n - 1 {
      BlockIsT(hmac, secret, info, i, n - 1);
      var front := Blocks(hmac, secret, info, n - 1);
      assert (front + T(hmac, secret, info, n))[32 * i..][..32] == front[32 * i..][..32];
    }
  }

  /** Up to 32 bytes need one HMAC. */
  lemma OneBlock(hmac: Hmac, secret: bytes, info: bytes, length: nat)
    requires length <= 32
    ensures Expand(hmac, secret, info, length) == Some(hmac(secret, info + [1])[..length])
  {
    ExpandIsChained(hmac, secret, info, 0);
    ShorterOutputIsPrefix(hmac, secret, info, length, 255 * 32);
    var all := Expand(hmac, secret, info, 255 * 32).value;
    AppendNothing(info);
    assert all[..32] == hmac(secret, info + [1]) by {
      assert all[32 * 0..] == all;
    }
    assert all[..32][..length] == all[..length];
  }

  /** The labels of the schedule as they are hashed: "tls13 ", "derived", "s hs traffic", "key" and "iv". */
  const TLS13_BYTES: bytes := [116, 108, 115, 49, 51, 32]
  const DERIVED_BYTES: bytes := [100, 101, 114, 105, 118, 101, 100]
  const TRAFFIC_BYTES: bytes := [115, 32, 104, 115, 32, 116, 114, 97, 102, 102, 105, 99]
  const KEY_BYTES: bytes := [107, 101, 121]
  const IV_BYTES: bytes := [105, 118]

  /** The HkdfLabel of a short output, byte by byte. */
  lemma LabelInfoBytes(name: bytes, context: bytes, length: nat)
    requires ValidLabel(name, context, length) && length < 256
    ensures LabelInfo(name, context, length) == [0, length, 6 + |name|] + TLS13_BYTES + name + [|context|] + context
  {
    TwoBytes(length);
    assert Text(LABEL_PREFIX) == TLS13_BYTES;
    hide Text, ToBE;
  }

  /** The handshake traffic key and IV of section 7.1 of RFC 8446 as a chain of HMACs over literal bytes. */
  predicate IsLadder(hmac: Hmac, sha256: Sha256, shared: bytes, transcript: bytes, keyLength: nat, key: bytes,
                     iv: bytes)
    requires keyLength <= 32
  {
    var zeroes := seq(32, _ => 0);
    var early := hmac(zeroes, zeroes);
    var derived := hmac(early, [0, 32, 13] + TLS13_BYTES + DERIVED_BYTES + [32] + sha256([]) + [1]);
    var handshake := hmac(derived, shared);
    var traffic := hmac(handshake, [0, 32, 18] + TLS13_BYTES + TRAFFIC_BYTES + [32] + sha256(transcript) + [1]);
    && key == hmac(traffic, [0, keyLength, 9] + TLS13_BYTES + KEY_BYTES + [0, 1])[..keyLength]
    && iv == hmac(traffic, [0, 12, 8] + TLS13_BYTES + IV_BYTES + [0, 1])[..12]
  }

  lemma DerivedSecretBytes(hmac: Hmac, sha256: Sha256, secret: bytes, name: string, transcript: bytes)
    requires 1 <= |name| <= 200
    ensures DeriveSecret(hmac, sha256, secret, name, transcript)
            == hmac(secret, [0, 32, 6 + |name|] + TLS13_BYTES + Text(name) + [32] + sha256(transcript) + [1])
  {
    hide LabelInfo, Text, Expand;
    var info := LabelInfo(Text(name), sha256(transcript), 32);
    LabelInfoBytes(Text(name), sha256(transcript), 32);
    OneBlock(hmac, secret, info, 32);
  }

  lemma ExpandedLabelBytes(hmac: Hmac, secret: bytes, name: bytes, length: nat)
    requires 1 <= |name| <= 200 && length <= 32
    ensures ExpandLabel(hmac, secret, name, [], length)
            == Some(hmac(secret, [0, length, 6 + |name|] + TLS13_BYTES + name + [0, 1])[..length])
  {
    hide LabelInfo, Expand;
    var info := LabelInfo(name, [], length);
    LabelInfoBytes(name, [], length);
    OneBlock(hmac, secret, info, length);
    assert info + [1] == [0, length, 6 + |name|] + TLS13_BYTES + name + [0, 1];
  }

  /** The keys are those of the ladder. */
  lemma ServerHandshakeKeysExact(hmac: Hmac, sha256: Sha256, shared: bytes, transcript: bytes, keyLength: nat,
                                 key: bytes, iv: bytes)
    requires keyLength <= 32
    ensures ServerHandshakeKeys(hmac, sha256, shared, transcript, keyLength) == (key, iv)
            <==> IsLadder(hmac, sha256, shared, transcript, keyLength, key, iv)
  {
    hide DeriveSecret, ExpandLabel, T, Blocks, Expand, Text;
    var zeroes: Digest := seq(32, _ => 0);
    var early := hmac(zeroes, zeroes);
    var derived := DeriveSecret(hmac, sha256, early, "derived", []);
    var handshake := hmac(derived, shared);
    var traffic := DeriveSecret(hmac, sha256, handshake, "s hs traffic", transcript);
    LabelTexts();
    DerivedSecretBytes(hmac, sha256, early, "derived", []);
    DerivedSecretBytes(hmac, sha256, handshake, "s hs traffic", transcript);
    ExpandedLabelBytes(hmac, traffic, Text("key"), keyLength);
    ExpandedLabelBytes(hmac, traffic, Text("iv"), 12);
  }

  lemma LabelTexts()
    ensures Text("derived") == DERIVED_BYTES && Text("s hs traffic") == TRAFFIC_BYTES
    ensures Text("key") == KEY_BYTES && Text("iv") == IV_BYTES
  {
  }
}
