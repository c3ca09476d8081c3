/** The output's signature policy: a mask from 1 to 7 over a table of three schemes (signatures.py). */
module Signatures {
  import opened Bytes

  type Mask = m: int | 1 <= m <= 7 witness 1

  const ECDSA_SECP256R1_SHA256: u16 := 0x0403
  const RSA_PSS_RSAE_SHA256: u16 := 0x0804
  const RSA_PSS_PSS_SHA256: u16 := 0x0809

  datatype SignatureAlgorithm = SignatureAlgorithm(bit: nat, scheme: u16)

  const SIGNATURE_ALGORITHMS: seq<SignatureAlgorithm> := [
    SignatureAlgorithm(1, ECDSA_SECP256R1_SHA256),
    SignatureAlgorithm(2, RSA_PSS_RSAE_SHA256),
    SignatureAlgorithm(4, RSA_PSS_PSS_SHA256)
  ]

  /** `mask & bit` for a power of two. */
  predicate HasBit(mask: Mask, bit: nat)
    requires bit > 0
  {
    mask / bit % 2 == 1
  }

  function Accepted(mask: Mask, table: seq<SignatureAlgorithm>): (schemes: seq<u16>)
    requires forall i :: 0 <= i < |table| ==> table[i].bit > 0
    ensures |schemes| <= |table|
  {
    if table == [] then []
    else
      var rest := Accepted(mask, table[1..]);
      if HasBit(mask, table[0].bit) then [table[0].scheme] + rest else rest
  }

  /** The schemes of `accepted_signature_algorithms(mask)`, in table order. */
  function AcceptedSchemes(mask: Mask): seq<u16> {
    Accepted(mask, SIGNATURE_ALGORITHMS)
  }

  predicate SchemeAllowed(mask: Mask, scheme: u16) {
    scheme in AcceptedSchemes(mask)
  }

  /** The whole table, mask by mask. */
  lemma AcceptedSchemesTable(mask: Mask)
    ensures AcceptedSchemes(mask) ==
            (if mask % 2 == 1 then [ECDSA_SECP256R1_SHA256] else [])
            + (if mask / 2 % 2 == 1 then [RSA_PSS_RSAE_SHA256] else [])
            + (if mask / 4 == 1 then [RSA_PSS_PSS_SHA256] else [])
    ensures 1 <= |AcceptedSchemes(mask)| <= 3
  {
    var t := SIGNATURE_ALGORITHMS;
    assert t[1..][1..] == [t[2]] && t[1..][0] == t[1] && [t[2]][1..] == [];
    assert Accepted(mask, [t[2]]) == if mask / 4 == 1 then [RSA_PSS_PSS_SHA256] else [];
    assert Accepted(mask, t[1..]) ==
           (if mask / 2 % 2 == 1 then [RSA_PSS_RSAE_SHA256] else []) + Accepted(mask, [t[2]]);
  }

  /** A scheme is allowed exactly when the mask has its bit. */
  lemma SchemeAllowedByBit(mask: Mask, scheme: u16)
    ensures SchemeAllowed(mask, scheme) <==>
            || (scheme == ECDSA_SECP256R1_SHA256 && mask in {1, 3, 5, 7})
            || (scheme == RSA_PSS_RSAE_SHA256 && mask in {2, 3, 6, 7})
            || (scheme == RSA_PSS_PSS_SHA256 && mask in {4, 5, 6, 7})
  {
    AcceptedSchemesTable(mask);
    hide AcceptedSchemes;
  }
}
