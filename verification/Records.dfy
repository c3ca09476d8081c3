/** Record protection: per-record nonces and inner plaintext (sections 5.2 to 5.4 of RFC 8446). */
module Records {
  import opened Bytes

  type Iv = s: bytes | |s| == 12 witness seq(12, _ => 0)

  const MAX_SEQUENCE := 0x1_0000_0000_0000_0000

  // ---------- exclusive or ----------

  function Pow2(k: nat): (p: nat)
    ensures p >= 1 && (k == 1 ==> p == 2) && (k == 2 ==> p == 4) && (k == 3 ==> p == 8) && (k == 4 ==> p == 16)
    ensures (k == 5 ==> p == 32) && (k == 6 ==> p == 64) && (k == 7 ==> p == 128) && (k == 8 ==> p == 256)
  {
    if k == 0 then 1 else 2 * Pow2(k - 1)
  }

  /** Bitwise exclusive or of two k-bit numbers. */
  function Xor(a: nat, b: nat, k: nat): (x: nat)
    requires a < Pow2(k) && b < Pow2(k)
    ensures x < Pow2(k)
  {
    if k == 0 then 0 else (if a % 2 == b % 2 then 0 else 1) + 2 * Xor(a / 2, b / 2, k - 1)
  }

  lemma {:induction false} XorCancels(a: nat, b: nat, k: nat)
    requires a < Pow2(k) && b < Pow2(k)
    ensures Xor(a, Xor(a, b, k), k) == b
  {
    if k > 0 {
      var x := Xor(a, b, k);
      assert x / 2 == Xor(a / 2, b / 2, k - 1) && x % 2 == if a % 2 == b % 2 then 0 else 1;
      XorCancels(a / 2, b / 2, k - 1);
    }
  }

  // ---------- nonces ----------

  /** `_record_nonce`; `None` where it raises. */
  function RecordNonce(iv: Iv, sequence: nat): (r: Option<bytes>)
    ensures r.Some? <==> sequence < MAX_SEQUENCE
    ensures r.Some? ==> |r.value| == 12
  {
    if sequence >= MAX_SEQUENCE then None else
      FitsTwelve(sequence);
      var padded := ToBE(sequence, 12);
      Some(seq(12, i requires 0 <= i < 12 => Xor(iv[i], padded[i], 8)))
  }

  lemma FitsTwelve(sequence: nat)
    requires sequence < MAX_SEQUENCE
    ensures sequence < Pow256(12)
  {
    assert Pow256(4) == 0x1_0000_0000;
    assert Pow256(5) == 256 * Pow256(4);
    assert Pow256(6) == 256 * Pow256(5);
    assert Pow256(7) == 256 * Pow256(6);
    assert Pow256(8) == 256 * Pow256(7);
    assert Pow256(9) == 256 * Pow256(8);
    assert Pow256(10) == 256 * Pow256(9);
    assert Pow256(11) == 256 * Pow256(10);
    assert Pow256(12) == 256 * Pow256(11);
  }

  /** Under one IV, different sequence numbers never give the same nonce. */
  lemma NonceInjective(iv: Iv, a: nat, b: nat)
    requires a < MAX_SEQUENCE && b < MAX_SEQUENCE && RecordNonce(iv, a) == RecordNonce(iv, b)
    ensures a == b
  {
    FitsTwelve(a);
    FitsTwelve(b);
    hide ToBE, BE, Pow256, Xor;
    var x, y := ToBE(a, 12), ToBE(b, 12);
    forall i | 0 <= i < 12 ensures x[i] == y[i] {
      assert RecordNonce(iv, a).value[i] == RecordNonce(iv, b).value[i];
      XorCancels(iv[i], x[i], 8);
      XorCancels(iv[i], y[i], 8);
    }
    assert x == y;
  }

  /** Bit `k` of a byte. */
  predicate Bit(x: nat, k: nat) {
    x / Pow2(k) % 2 == 1
  }

  lemma {:induction false} XorBits(a: nat, b: nat, n: nat, k: nat)
    requires a < Pow2(n) && b < Pow2(n) && k < n
    ensures Bit(Xor(a, b, n), k) <==> Bit(a, k) != Bit(b, k)
  {
    var x := Xor(a, b, n);
    assert x / 2 == Xor(a / 2, b / 2, n - 1) && x % 2 == if a % 2 == b % 2 then 0 else 1;
    if k > 0 {
      XorBits(a / 2, b / 2, n - 1, k - 1);
      Halves(a, Pow2(k - 1));
      Halves(b, Pow2(k - 1));
      Halves(x, Pow2(k - 1));
    } else {
      assert Pow2(0) == 1;
    }
  }

  lemma Halves(x: nat, p: nat)
    requires p > 0
    ensures x / (2 * p) == x / 2 / p
  {
    var q, r := x / 2 / p, x / 2 % p;
    assert x / 2 == q * p + r;
    assert x == 2 * (x / 2) + x % 2;
    assert x == q * (2 * p) + (2 * r + x % 2);
    QuotientIs(x, 2 * p, q, 2 * r + x % 2);
  }

  lemma QuotientIs(x: nat, d: nat, q: nat, r: nat)
    requires r < d && x == q * d + r
    ensures x / d == q
  {
    var e := x / d - q;
    assert x == (x / d) * d + x % d;
    assert e * d == r - x % d;
    Apart(e, d);
  }

  lemma Apart(e: int, d: nat)
    ensures e >= 1 ==> e * d >= d
    ensures e <= -1 ==> e * d + d <= 0
  {
  }

  /** Section 5.3 of RFC 8446: the nonce is, bit by bit, the IV exclusive-ored with the sequence number as twelve
      bytes, most significant first. */
  lemma NonceBits(iv: Iv, sequence: nat) returns (padded: bytes)
    requires sequence < MAX_SEQUENCE
    ensures |padded| == 12 && BE(padded) == sequence
    ensures forall i, k :: 0 <= i < 12 && 0 <= k < 8 ==>
              (Bit(RecordNonce(iv, sequence).value[i], k) <==> Bit(iv[i], k) != Bit(padded[i], k))
  {
    FitsTwelve(sequence);
    hide BE, Pow256, Bit;
    padded := ToBE(sequence, 12);
    forall i, k | 0 <= i < 12 && 0 <= k < 8
      ensures Bit(RecordNonce(iv, sequence).value[i], k) <==> Bit(iv[i], k) != Bit(padded[i], k)
    {
      XorBits(iv[i], padded[i], 8, k);
    }
  }

  // ---------- inner plaintext ----------

  function Zeros(n: nat): (s: bytes)
    ensures |s| == n
  {
    seq(n, _ => 0)
  }

  /** `plaintext.rstrip(b"\x00")`, split into the content type and the content. */
  function Unpad(plaintext: bytes): Option<(byte, bytes)> {
    if plaintext == [] then None
    else
      var last := |plaintext| - 1;
      if plaintext[last] == 0 then Unpad(plaintext[..last]) else Some((plaintext[last], plaintext[..last]))
  }

  /** A TLSInnerPlaintext: content, its type, and any amount of zero padding. */
  function InnerPlaintext(kind: byte, content: bytes, padding: nat): bytes {
    content + [kind] + Zeros(padding)
  }

  lemma {:induction false} UnpadRecovers(kind: byte, content: bytes, padding: nat)
    requires kind != 0
    ensures Unpad(InnerPlaintext(kind, content, padding)) == Some((kind, content))
  {
    var s := InnerPlaintext(kind, content, padding);
    if padding == 0 {
      assert s[..|s| - 1] == content && s[|s| - 1] == kind;
    } else {
      assert s[|s| - 1] == 0 && s[..|s| - 1] == InnerPlaintext(kind, content, padding - 1);
      UnpadRecovers(kind, content, padding - 1);
    }
  }

  /** Unpadding finds exactly the type and content that some amount of padding hides. */
  lemma {:induction false} UnpadExact(plaintext: bytes, kind: byte, content: bytes)
    ensures Unpad(plaintext) == Some((kind, content))
            <==> kind != 0 && exists n :: plaintext == InnerPlaintext(kind, content, n)
  {
    if Unpad(plaintext) == Some((kind, content)) {
      UnpadSound(plaintext);
    }
    if n: nat :| kind != 0 && plaintext == InnerPlaintext(kind, content, n) {
      UnpadRecovers(kind, content, n);
    }
  }

  lemma {:induction false} UnpadSound(plaintext: bytes)
    requires Unpad(plaintext).Some?
    ensures var (kind, content) := Unpad(plaintext).value;
            kind != 0 && exists n :: plaintext == InnerPlaintext(kind, content, n)
  {
    var (kind, content) := Unpad(plaintext).value;
    var last := |plaintext| - 1;
    if plaintext[last] == 0 {
      UnpadSound(plaintext[..last]);
      var n: nat :| plaintext[..last] == InnerPlaintext(kind, content, n);
      assert plaintext == InnerPlaintext(kind, content, n + 1);
    } else {
      assert plaintext == InnerPlaintext(kind, content, 0);
    }
  }
}
