/** Byte strings, big-endian integers and the failure-compatible `Option` used by every parser. */
module Bytes {

  type byte = x: int | 0 <= x < 256
  type bytes = seq<byte>
  type u16 = x: int | 0 <= x < 0x1_0000

  /** `None` stands for the exception the program raises. */
  datatype Option<+T> = None | Some(value: T) {

    predicate IsFailure() {
      None?
    }

    function PropagateFailure<U>(): Option<U>
      requires None?
    {
      None
    }

    function Extract(): T
      requires Some?
    {
      value
    }
  }

  // Facts about sequences, kept apart so that proofs about long concatenations stay cheap.

  lemma Assoc<T>(a: seq<T>, b: seq<T>, c: seq<T>)
    ensures (a + b) + c == a + (b + c)
  {
  }

  lemma HeadTail<T>(s: seq<T>)
    requires s != []
    ensures s == [s[0]] + s[1..]
  {
  }

  lemma AppendNothing<T>(s: seq<T>)
    ensures s + [] == s && [] + s == s
  {
  }

  function Pow256(k: nat): (p: nat)
    ensures p >= 1
    ensures (k == 1 ==> p == 0x100) && (k == 2 ==> p == 0x1_0000)
    ensures (k == 3 ==> p == 0x100_0000) && (k == 4 ==> p == 0x1_0000_0000)
  {
    if k == 0 then 1 else 256 * Pow256(k - 1)
  }

  /** `int.from_bytes(s, "big")`. */
  function BE(s: bytes): (n: nat)
    ensures n < Pow256(|s|)
  {
    if s == [] then 0 else BE(s[..|s| - 1]) * 256 + s[|s| - 1]
  }

  /** `n.to_bytes(k, "big")`, where the source raises unless `n` fits. */
  function ToBE(n: nat, k: nat): (s: bytes)
    requires n < Pow256(k)
    ensures |s| == k && BE(s) == n
  {
    if k == 0 then [] else
      var s := ToBE(n / 256, k - 1) + [n % 256];
      assert s[..|s| - 1] == ToBE(n / 256, k - 1);
      s
  }

  lemma {:induction false} BEInjective(s: bytes, t: bytes)
    requires |s| == |t| && BE(s) == BE(t)
    ensures s == t
  {
    if s == [] {
    } else {
      BEInjective(s[..|s| - 1], t[..|t| - 1]);
      assert s == s[..|s| - 1] + [s[|s| - 1]] && t == t[..|t| - 1] + [t[|t| - 1]];
    }
  }

  lemma {:induction false} BEHead(s: bytes)
    requires s != []
    ensures BE(s) == s[0] * Pow256(|s| - 1) + BE(s[1..])
  {
    if |s| == 1 {
      assert s[..0] == [] && s[1..] == [];
    } else {
      var front := s[..|s| - 1];
      BEHead(front);
      assert front[1..] == s[1..][..|s| - 2];
      assert BE(s[1..]) == BE(front[1..]) * 256 + s[|s| - 1];
      assert Pow256(|s| - 1) == 256 * Pow256(|s| - 2);
      Scale(s[0], Pow256(|s| - 2));
    }
  }

  lemma Scale(x: int, p: int)
    ensures x * p * 256 == x * (256 * p)
  {
  }

  lemma ToBEInverse(s: bytes)
    ensures ToBE(BE(s), |s|) == s
  {
    BEInjective(ToBE(BE(s), |s|), s);
  }

  lemma SmallConstants()
    ensures forall n :: 0 <= n < 256 ==> ToBE(n, 1) == [n]
    ensures ToBE(2, 2) == [0, 2]
  {
    forall n | 0 <= n < 256 ensures ToBE(n, 1) == [n] {
      assert ToBE(n / 256, 0) == [];
    }
    assert ToBE(0, 1) == [0];
  }

  /** Two and three bytes, most significant first. */
  function U16(n: nat): bytes
    requires n < 0x1_0000
  {
    [n / 256, n % 256]
  }

  function U24(n: nat): bytes
    requires n < 0x100_0000
  {
    [n / 0x1_0000, n / 256 % 256, n % 256]
  }

  lemma TwoBytes(n: nat)
    requires n < 0x1_0000
    ensures ToBE(n, 2) == U16(n)
  {
    SmallConstants();
    assert ToBE(n / 256, 1) == [n / 256];
  }

  lemma ThreeBytes(n: nat)
    requires n < 0x100_0000
    ensures ToBE(n, 3) == U24(n)
  {
    TwoBytes(n / 256);
    assert n / 256 / 256 == n / 0x1_0000;
  }

  /** Concatenation of a list of byte strings, as `b"".join` computes it. */
  function Join(parts: seq<bytes>): bytes {
    if parts == [] then [] else parts[0] + Join(parts[1..])
  }

  lemma {:induction false} JoinAppend(parts: seq<bytes>, more: seq<bytes>)
    ensures Join(parts + more) == Join(parts) + Join(more)
  {
    if parts == [] {
      assert parts + more == more && Join(parts) == [];
    } else {
      JoinAppend(parts[1..], more);
      assert (parts + more)[1..] == parts[1..] + more && (parts + more)[0] == parts[0];
      Assoc(parts[0], Join(parts[1..]), Join(more));
    }
  }

  lemma JoinSnoc(parts: seq<bytes>, last: bytes)
    ensures Join(parts + [last]) == Join(parts) + last
  {
    JoinAppend(parts, [last]);
    assert Join([last]) == last;
  }
}
