/** Tagged hashes and the numeric work target (hashes.py). SHA-256 stays uninterpreted: a parameter. */
module Hashes {
  import opened Bytes

  type Digest = d: bytes | |d| == 32 witness seq(32, _ => 0)
  type Sha256 = bytes -> Digest

  const CLAIM_TAG := "ConnectCoin/P2C/claim/v1"
  const WORK_TAG := "ConnectCoin/P2C/work/v2"

  /** A 7-bit literal as bytes. */
  function Text(s: string): (encoded: bytes)
    ensures |encoded| == |s|
  {
    seq(|s|, i requires 0 <= i < |s| => s[i] as int % 128)
  }

  /** What is hashed for `message` under `tag`. */
  function TaggedPreimage(sha256: Sha256, tag: string, message: bytes): bytes {
    sha256(Text(tag)) + sha256(Text(tag)) + message
  }

  function TaggedHash(sha256: Sha256, tag: string, message: bytes): Digest {
    sha256(TaggedPreimage(sha256, tag, message))
  }

  /** `connection_work_hash` of the joined four messages. */
  function ConnectionWorkHash(sha256: Sha256, messages: bytes): Digest {
    TaggedHash(sha256, WORK_TAG, messages)
  }

  /** The message hashed for a claim: the transaction id in internal order, then the input index. */
  function ClaimMessage(txid: Digest, inputIndex: nat): bytes
    requires inputIndex < 0x1_0000_0000
  {
    txid + Reverse(ToBE(inputIndex, 4))
  }

  lemma ClaimMessageInjective(a: Digest, i: nat, b: Digest, j: nat)
    requires i < 0x1_0000_0000 && j < 0x1_0000_0000 && ClaimMessage(a, i) == ClaimMessage(b, j)
    ensures a == b && i == j
  {
    hide ToBE;
    var x, y := Reverse(ToBE(i, 4)), Reverse(ToBE(j, 4));
    assert (a + x)[..32] == a && (b + y)[..32] == b && (a + x)[32..] == x && (b + y)[32..] == y;
    ReverseTwice(ToBE(i, 4));
    ReverseTwice(ToBE(j, 4));
  }

  /** What is hashed for a claim: 36 bytes that give back the displayed transaction id and, little-endian, the
      input index. */
  lemma ClaimMessageLayout(txid: string, inputIndex: nat)
    requires IsDisplayHash(txid) && inputIndex < 0x1_0000_0000
    ensures var m := ClaimMessage(DisplayHashToInternal(txid).value, inputIndex);
            |m| == 36 && InternalHashToDisplay(m[..32]) == txid && LE(m[32..]) == inputIndex
  {
    hide ToBE, BE, InternalHashToDisplay, DisplayHashToInternal;
    var internal := DisplayHashToInternal(txid).value;
    var index: bytes := Reverse(ToBE(inputIndex, 4));
    assert (internal + index)[..32] == internal && (internal + index)[32..] == index;
    ReverseTwice(ToBE(inputIndex, 4));
    DisplayRoundTrip(internal, txid);
  }

  /** The little-endian value, byte by byte. */
  lemma {:induction false} LEBytes(s: bytes)
    ensures LE(s) == if s == [] then 0 else s[0] + 256 * LE(s[1..])
  {
    if s != [] {
      var r := Reverse(s);
      assert r[..|r| - 1] == Reverse(s[1..]) && r[|r| - 1] == s[0];
    }
  }

  /** The two tags as they are hashed: "ConnectCoin/P2C/claim/v1" and "ConnectCoin/P2C/work/v2". */
  const CLAIM_TAG_BYTES: bytes := [
    67, 111, 110, 110, 101, 99, 116, 67, 111, 105, 110, 47, 80, 50, 67, 47, 99, 108, 97, 105, 109, 47, 118, 49
  ]
  const WORK_TAG_BYTES: bytes := [
    67, 111, 110, 110, 101, 99, 116, 67, 111, 105, 110, 47, 80, 50, 67, 47, 119, 111, 114, 107, 47, 118, 50
  ]

  /** What a claim and a proof's work are the hashes of. */
  lemma TaggedHashesSpelledOut(sha256: Sha256, message: bytes)
    ensures TaggedHash(sha256, CLAIM_TAG, message)
            == sha256(sha256(CLAIM_TAG_BYTES) + sha256(CLAIM_TAG_BYTES) + message)
    ensures ConnectionWorkHash(sha256, message)
            == sha256(sha256(WORK_TAG_BYTES) + sha256(WORK_TAG_BYTES) + message)
  {
    assert Text(CLAIM_TAG) == CLAIM_TAG_BYTES;
    assert Text(WORK_TAG) == WORK_TAG_BYTES;
  }

  // ---------- display order ----------

  function Reverse(s: bytes): (r: bytes)
    ensures |r| == |s|
  {
    seq(|s|, i requires 0 <= i < |s| => s[|s| - 1 - i])
  }

  lemma ReverseTwice(s: bytes)
    ensures Reverse(Reverse(s)) == s
  {
  }

  predicate IsHex(c: char) {
    '0' <= c <= '9' || 'a' <= c <= 'f'
  }

  function HexValue(c: char): (n: nat)
    requires IsHex(c)
    ensures n < 16
  {
    if c <= '9' then c as int - '0' as int else c as int - 'a' as int + 10
  }

  function HexDigit(n: nat): (c: char)
    requires n < 16
    ensures IsHex(c) && HexValue(c) == n
  {
    if n < 10 then (n + '0' as int) as char else (n - 10 + 'a' as int) as char
  }

  /** `s.hex()`. */
  function ToHex(s: bytes): (h: string)
    ensures |h| == 2 * |s|
    ensures forall i :: 0 <= i < |h| ==> IsHex(h[i])
  {
    if s == [] then [] else [HexDigit(s[0] / 16), HexDigit(s[0] % 16)] + ToHex(s[1..])
  }

  /** `bytes.fromhex(h)` on whole bytes of lower-case digits. */
  function FromHex(h: string): (s: bytes)
    requires |h| % 2 == 0 && forall i :: 0 <= i < |h| ==> IsHex(h[i])
    ensures 2 * |s| == |h|
  {
    if h == [] then [] else [16 * HexValue(h[0]) + HexValue(h[1])] + FromHex(h[2..])
  }

  lemma {:induction false} FromToHex(s: bytes)
    ensures FromHex(ToHex(s)) == s
  {
    if s != [] {
      var h := ToHex(s);
      assert h[2..] == ToHex(s[1..]);
      FromToHex(s[1..]);
    }
  }

  lemma {:induction false} ToFromHex(h: string)
    requires |h| % 2 == 0 && forall i :: 0 <= i < |h| ==> IsHex(h[i])
    ensures ToHex(FromHex(h)) == h
  {
    if h != [] {
      var s := FromHex(h);
      assert s[1..] == FromHex(h[2..]);
      ToFromHex(h[2..]);
      assert h == [h[0], h[1]] + h[2..];
      assert s[0] / 16 == HexValue(h[0]) && s[0] % 16 == HexValue(h[1]);
    }
  }

  /** The spelling `_display_hash_to_internal` demands: 64 lower-case hexadecimal digits. */
  predicate IsDisplayHash(value: string) {
    |value| == 64 && forall i :: 0 <= i < |value| ==> IsHex(value[i])
  }

  /** `_display_hash_to_internal`; `None` where it raises. */
  function DisplayHashToInternal(value: string): (r: Option<Digest>)
    ensures r.Some? <==> IsDisplayHash(value)
  {
    if IsDisplayHash(value) then Some(Reverse(FromHex(value))) else None
  }

  function InternalHashToDisplay(value: Digest): (display: string)
    ensures IsDisplayHash(display)
  {
    ToHex(Reverse(value))
  }

  /** The two conversions are inverse bijections. */
  lemma DisplayRoundTrip(value: Digest, display: string)
    ensures DisplayHashToInternal(display) == Some(value) <==> InternalHashToDisplay(value) == display
  {
    hide ToHex, FromHex;
    if DisplayHashToInternal(display) == Some(value) {
      ReverseTwice(FromHex(display));
      ToFromHex(display);
    }
    if InternalHashToDisplay(value) == display {
      FromToHex(Reverse(value));
      ReverseTwice(value);
    }
  }

  // ---------- the work target ----------

  /** `int.from_bytes(s, "little")`. */
  function LE(s: bytes): nat {
    BE(Reverse(s))
  }

  /** `meets_work_target`; `None` where the target is not a display hash. */
  function MeetsWorkTarget(workHash: Digest, target: string): Option<bool> {
    match DisplayHashToInternal(target)
    case None => None
    case Some(internal) => Some(LE(workHash) <= LE(internal))
  }

  /** Lexicographic order on strings of one length. */
  predicate LexAtMost(a: string, b: string)
    requires |a| == |b|
  {
    a == [] || a[0] < b[0] || (a[0] == b[0] && LexAtMost(a[1..], b[1..]))
  }

  lemma {:induction false} MulMonotone(x: nat, y: nat, p: nat)
    requires x <= y
    ensures x * p <= y * p
    decreases y
  {
    if x < y {
      MulMonotone(x, y - 1, p);
      assert y * p == (y - 1) * p + p;
    }
  }

  lemma LeadingDigitDecides(x: nat, y: nat, p: nat, r: nat, q: nat)
    requires x < y && r < p
    ensures x * p + r < y * p + q
  {
    MulMonotone(x + 1, y, p);
    assert (x + 1) * p == x * p + p;
  }

  /** For every length, numeric order is lexicographic order of the hexadecimal spellings. */
  lemma {:induction false} HexOrder(a: bytes, b: bytes)
    requires |a| == |b|
    ensures BE(a) <= BE(b) <==> LexAtMost(ToHex(a), ToHex(b))
  {
    if a != [] {
      hide BE, Pow256;
      var x, y, p := a[0], b[0], Pow256(|a| - 1);
      BEHead(a);
      BEHead(b);
      HexOrder(a[1..], b[1..]);
      if x < y {
        LeadingDigitDecides(x, y, p, BE(a[1..]), BE(b[1..]));
      } else if y < x {
        LeadingDigitDecides(y, x, p, BE(b[1..]), BE(a[1..]));
      }
      HexHead(a, b);
    }
  }

  lemma DigitOrder(m: nat, n: nat)
    requires m < 16 && n < 16
    ensures HexDigit(m) < HexDigit(n) <==> m < n
    ensures HexDigit(m) == HexDigit(n) <==> m == n
  {
  }

  lemma HexHead(a: bytes, b: bytes)
    requires |a| == |b| && a != []
    ensures LexAtMost(ToHex(a), ToHex(b))
            <==> a[0] < b[0] || (a[0] == b[0] && LexAtMost(ToHex(a[1..]), ToHex(b[1..])))
  {
    var g, h := ToHex(a), ToHex(b);
    DigitOrder(a[0] / 16, b[0] / 16);
    DigitOrder(a[0] % 16, b[0] % 16);
    assert g[0] == HexDigit(a[0] / 16) && g[1] == HexDigit(a[0] % 16) && g[2..] == ToHex(a[1..]);
    assert h[0] == HexDigit(b[0] / 16) && h[1] == HexDigit(b[0] % 16) && h[2..] == ToHex(b[1..]);
    hide HexDigit, ToHex;
    assert g[1..][0] == g[1] && h[1..][0] == h[1] && g[1..][1..] == g[2..] && h[1..][1..] == h[2..];
    assert LexAtMost(g, h) <==> g[0] < h[0] || (g[0] == h[0] && LexAtMost(g[1..], h[1..]));
  }

  /** A hash meets a target exactly when its display form is lexicographically at most the target. */
  lemma TargetIsLexicographic(workHash: Digest, target: string)
    requires IsDisplayHash(target)
    ensures MeetsWorkTarget(workHash, target) == Some(LexAtMost(InternalHashToDisplay(workHash), target))
  {
    hide BE, ToHex, FromHex;
    ReverseTwice(FromHex(target));
    ToFromHex(target);
    HexOrder(Reverse(workHash), FromHex(target));
  }
}
