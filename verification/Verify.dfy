/** `verify_connection_proof` (verify.py): the order of its checks, over an uninterpreted X.509 library and a
    root file that does not change. */
module Verify {
  import opened Bytes
  import opened Domain
  import opened Signatures
  import opened Hashes
  import opened Messages
  import opened Wire
  import opened ProofFormat
  import opened Parser

  /** The record passed around (envelope.py). */
  datatype Envelope = Envelope(
    domain: string, txid: string, inputIndex: nat, target: string, rootsVersion: nat, mask: Mask,
    validationTime: nat, proof: bytes)

  /** What constructing the record checks. */
  predicate ValidEnvelope(e: Envelope) {
    && IsCanonicalDomain(e.domain) && IsDisplayHash(e.txid) && IsDisplayHash(e.target)
    && e.inputIndex < 0x1_0000_0000 && 1 <= e.rootsVersion < 0x1_0000_0000
    && 1 <= e.validationTime < 0x8000_0000_0000_0000 && |e.proof| <= MAX_PROOF_SIZE
  }

  /** `replace(e, proof=...)`; `None` where the new record is refused. */
  function WithProof(e: Envelope, proof: bytes): (r: Option<Envelope>)
    requires ValidEnvelope(e)
    ensures r.Some? ==> ValidEnvelope(r.value)
  {
    if |proof| <= MAX_PROOF_SIZE then Some(e.(proof := proof)) else None
  }

  /** The bytes that must be the ClientHello random. */
  function Challenge(sha256: Sha256, e: Envelope): Digest
    requires ValidEnvelope(e)
  {
    TaggedHash(sha256, CLAIM_TAG, ClaimMessage(DisplayHashToInternal(e.txid).value, e.inputIndex))
  }

  /** The library calls, as functions of what they are given. */
  datatype Authority = Authority(
    loads: seq<bytes> -> bool,
    roots: (nat, bool) -> bool,
    timesValid: (seq<bytes>, nat) -> bool,
    leafUsable: bytes -> bool,
    pathValid: (seq<bytes>, nat, string, nat) -> bool,
    signatureValid: (bytes, u16, bytes, Digest) -> bool)

  datatype Stage =
    | Malformed | SchemeNotAllowed | AboveTarget | BadCertificates | BadRoots | BadTimes | BadUsage | BadPath
    | BadSignature

  datatype VerificationResult = VerificationResult(
    challenge: string, transcriptHash: string, connectionWorkHash: string, certificateCount: nat, scheme: u16,
    mask: Mask)

  datatype Verdict = Rejected(stage: Stage) | Verified(result: VerificationResult)

  function ParsedEnvelope(sha256: Sha256, e: Envelope): Option<ParsedProof>
    requires ValidEnvelope(e)
  {
    ParsedProofOf(sha256, e.proof, e.domain, Challenge(sha256, e))
  }

  function VerifyConnectionProof(sha256: Sha256, x: Authority, e: Envelope, enforceRootPin: bool): Verdict
    requires ValidEnvelope(e)
  {
    hide ParsedEnvelope;
    match ParsedEnvelope(sha256, e)
    case None => Rejected(Malformed)
    case Some(parsed) =>
      if !SchemeAllowed(e.mask, parsed.certificateVerifyScheme) then Rejected(SchemeNotAllowed)
      else if MeetsWorkTarget(parsed.connectionWorkHash, e.target) != Some(true) then Rejected(AboveTarget)
      else CheckCertificates(sha256, x, e, enforceRootPin, parsed)
  }

  /** The checks after the work target. */
  function CheckCertificates(sha256: Sha256, x: Authority, e: Envelope, enforceRootPin: bool, parsed: ParsedProof)
    : Verdict
    requires ValidEnvelope(e)
  {
    var chain := parsed.certificateChain;
    if !x.loads(chain) then Rejected(BadCertificates)
    else if !x.roots(e.rootsVersion, enforceRootPin) then Rejected(BadRoots)
    else if !x.timesValid(chain, e.validationTime) then Rejected(BadTimes)
    else if chain == [] || !x.leafUsable(chain[0]) then Rejected(BadUsage)  // a parsed chain is never empty
    else if !x.pathValid(chain, e.rootsVersion, e.domain, e.validationTime) then Rejected(BadPath)
    else if !x.signatureValid(chain[0], parsed.certificateVerifyScheme, parsed.certificateVerifySignature,
                              parsed.transcriptHash) then Rejected(BadSignature)
    else Verified(VerificationResult(
      ToHex(Challenge(sha256, e)), ToHex(parsed.transcriptHash), InternalHashToDisplay(parsed.connectionWorkHash),
      |chain|, parsed.certificateVerifyScheme, e.mask))
  }

  /** The target of the preflight check, which every hash meets. */
  function EasiestTarget(): (target: string)
    ensures IsDisplayHash(target)
  {
    seq(64, _ => 'f')
  }

  lemma {:induction false} AtMostAllF(a: string, b: string)
    requires |a| == |b| && (forall i :: 0 <= i < |a| ==> IsHex(a[i])) && (forall i :: 0 <= i < |b| ==> b[i] == 'f')
    ensures LexAtMost(a, b)
  {
    if a != [] {
      AtMostAllF(a[1..], b[1..]);
    }
  }

  lemma EasiestTargetIsMet(workHash: Digest)
    ensures MeetsWorkTarget(workHash, EasiestTarget()) == Some(true)
  {
    hide InternalHashToDisplay, MeetsWorkTarget;
    TargetIsLexicographic(workHash, EasiestTarget());
    AtMostAllF(InternalHashToDisplay(workHash), EasiestTarget());
  }

  /** The verdict depends on the target only through whether the work meets it. */
  lemma TargetMattersOnlyThroughWork(sha256: Sha256, x: Authority, e: Envelope, pin: bool, target: string)
    requires ValidEnvelope(e) && IsDisplayHash(target)
    requires ParsedEnvelope(sha256, e).Some? ==>
               MeetsWorkTarget(ParsedEnvelope(sha256, e).value.connectionWorkHash, e.target)
               == MeetsWorkTarget(ParsedEnvelope(sha256, e).value.connectionWorkHash, target)
    ensures VerifyConnectionProof(sha256, x, e.(target := target), pin) == VerifyConnectionProof(sha256, x, e, pin)
  {
    hide ParsedProofOf, MeetsWorkTarget, SchemeAllowed, Challenge, IsCanonicalDomain;
    SameChallenge(sha256, e, target);
  }

  lemma SameChallenge(sha256: Sha256, e: Envelope, target: string)
    requires ValidEnvelope(e) && IsDisplayHash(target)
    ensures Challenge(sha256, e.(target := target)) == Challenge(sha256, e)
  {
  }

  /** Verifying at the easiest target and meeting the real one is verifying at the real one. */
  lemma PreflightThenWork(sha256: Sha256, x: Authority, e: Envelope, pin: bool)
    requires ValidEnvelope(e)
    ensures VerifyConnectionProof(sha256, x, e, pin).Verified? <==>
            && VerifyConnectionProof(sha256, x, e.(target := EasiestTarget()), pin).Verified?
            && MeetsWorkTarget(ParsedEnvelope(sha256, e).value.connectionWorkHash, e.target) == Some(true)
  {
    hide ParsedProofOf, MeetsWorkTarget, SchemeAllowed, Challenge, IsCanonicalDomain, CheckCertificates;
    SameChallenge(sha256, e, EasiestTarget());
    if ParsedEnvelope(sha256, e).Some? {
      EasiestTargetIsMet(ParsedEnvelope(sha256, e).value.connectionWorkHash);
      SameCertificateChecks(sha256, x, e, pin, ParsedEnvelope(sha256, e).value);
    }
  }

  lemma SameCertificateChecks(sha256: Sha256, x: Authority, e: Envelope, pin: bool, parsed: ParsedProof)
    requires ValidEnvelope(e)
    ensures CheckCertificates(sha256, x, e.(target := EasiestTarget()), pin, parsed)
            == CheckCertificates(sha256, x, e, pin, parsed)
  {
    SameChallenge(sha256, e, EasiestTarget());
    hide Challenge;
  }

  /** What acceptance comes down to for the proof `p`. */
  predicate Acceptable(sha256: Sha256, x: Authority, e: Envelope, pin: bool, p: Proof)
    requires ValidEnvelope(e)
  {
    && WellFormedProof(p, e.domain, Challenge(sha256, e)) && e.proof == PrintProof(p)
    && SchemeAllowed(e.mask, p.verify.scheme)
    && LexAtMost(InternalHashToDisplay(ConnectionWorkHash(sha256, WorkMessages(FramesOf(p)))), e.target)
    && x.loads(Chain(p.certificate)) && x.roots(e.rootsVersion, pin)
    && x.timesValid(Chain(p.certificate), e.validationTime) && x.leafUsable(Chain(p.certificate)[0])
    && x.pathValid(Chain(p.certificate), e.rootsVersion, e.domain, e.validationTime)
    && x.signatureValid(Chain(p.certificate)[0], p.verify.scheme, p.verify.signature, sha256(WorkMessages(FramesOf(p))))
  }

  lemma ParsedMeans(sha256: Sha256, e: Envelope, p: Proof)
    requires ValidEnvelope(e)
    ensures WellFormedProof(p, e.domain, Challenge(sha256, e)) && e.proof == PrintProof(p) ==>
              ParsedEnvelope(sha256, e) == Some(Parsed(sha256, FramesOf(p), p))
    ensures DecodeProof(e.proof, e.domain, Challenge(sha256, e)) == Some(p) ==>
              WellFormedProof(p, e.domain, Challenge(sha256, e)) && e.proof == PrintProof(p)
  {
    hide DecodeFrames, PrintFrames, IsCanonicalDomain, WellFormedCertificateVerify, Dict, Distinct, Vector, PrintItems,
         PrintU16s, PrintEntries, ServerName, WellFormedShares, ValidKeyShare, Challenge, SplitProof,
         Parsed, DecodeProof;
    AcceptsExactlyPrintedProofs(e.proof, e.domain, Challenge(sha256, e), p);
    if WellFormedProof(p, e.domain, Challenge(sha256, e)) && e.proof == PrintProof(p) {
      SplitProofPrinted(FramesOf(p));
    }
  }

  /** An envelope verifies exactly when its proof is the printed form of a well-formed proof for its own domain
      and challenge, signed with a scheme of its mask, whose displayed work hash is lexicographically at most
      its target, and the library accepts the chain and the signature over the work messages. */
  lemma VerifiesExactly(sha256: Sha256, x: Authority, e: Envelope, pin: bool)
    requires ValidEnvelope(e)
    ensures VerifyConnectionProof(sha256, x, e, pin).Verified? <==> exists p :: Acceptable(sha256, x, e, pin, p)
  {
    hide IsCanonicalDomain, PrintFrames, WellFormedCertificateVerify, Dict, Distinct, Vector, PrintItems, PrintU16s,
         PrintEntries, ServerName, WellFormedShares, ValidKeyShare, Challenge, SchemeAllowed, ConnectionWorkHash,
         WorkMessages, LexAtMost, InternalHashToDisplay, MeetsWorkTarget, SplitProof, DecodeFrames, Handshake,
         WellFormedOpening, OpeningBody, ServerHelloBody, CertificateBody, CertificateVerifyBody;
    if VerifyConnectionProof(sha256, x, e, pin).Verified? {
      var p := DecodeProof(e.proof, e.domain, Challenge(sha256, e)).value;
      ParsedMeans(sha256, e, p);
      TargetIsLexicographic(ParsedEnvelope(sha256, e).value.connectionWorkHash, e.target);
      assert Acceptable(sha256, x, e, pin, p);
    }
    if p :| Acceptable(sha256, x, e, pin, p) {
      ParsedMeans(sha256, e, p);
      TargetIsLexicographic(ConnectionWorkHash(sha256, WorkMessages(FramesOf(p))), e.target);
      assert VerifyConnectionProof(sha256, x, e, pin).Verified?;
    }
  }

  // ---------- the challenge and the order of the checks ----------

  /** The challenge is the tagged hash of 36 bytes that give back the displayed transaction id and the index. */
  lemma ChallengeSpelledOut(sha256: Sha256, e: Envelope) returns (m: bytes)
    requires ValidEnvelope(e)
    ensures Challenge(sha256, e) == sha256(sha256(CLAIM_TAG_BYTES) + sha256(CLAIM_TAG_BYTES) + m)
    ensures |m| == 36 && InternalHashToDisplay(m[..32]) == e.txid && LE(m[32..]) == e.inputIndex
  {
    hide IsCanonicalDomain, ClaimMessage, DisplayHashToInternal, InternalHashToDisplay, LE, TaggedHash, CLAIM_TAG_BYTES;
    m := ClaimMessage(DisplayHashToInternal(e.txid).value, e.inputIndex);
    ClaimMessageLayout(e.txid, e.inputIndex);
    TaggedHashesSpelledOut(sha256, m);
  }

  /** The checks after the parse, in the order they are made. */
  const CHECKS: seq<Stage> := [
    SchemeNotAllowed, AboveTarget, BadCertificates, BadRoots, BadTimes, BadUsage, BadPath, BadSignature
  ]

  predicate Passes(x: Authority, e: Envelope, pin: bool, q: ParsedProof, stage: Stage) {
    var chain := q.certificateChain;
    match stage
    case Malformed => true
    case SchemeNotAllowed => SchemeAllowed(e.mask, q.certificateVerifyScheme)
    case AboveTarget => |e.target| == 64 && LexAtMost(InternalHashToDisplay(q.connectionWorkHash), e.target)
    case BadCertificates => x.loads(chain)
    case BadRoots => x.roots(e.rootsVersion, pin)
    case BadTimes => x.timesValid(chain, e.validationTime)
    case BadUsage => chain != [] && x.leafUsable(chain[0])
    case BadPath => x.pathValid(chain, e.rootsVersion, e.domain, e.validationTime)
    case BadSignature =>
      && chain != []
      && x.signatureValid(chain[0], q.certificateVerifyScheme, q.certificateVerifySignature, q.transcriptHash)
  }

  /** The check with number `k` is the first that fails. */
  predicate FirstFailure(x: Authority, e: Envelope, pin: bool, q: ParsedProof, k: nat) {
    && k < |CHECKS| && !Passes(x, e, pin, q, CHECKS[k])
    && forall j :: 0 <= j < k ==> Passes(x, e, pin, q, CHECKS[j])
  }

  /** The verdict names the first check in order that fails; if none does, it shows the challenge and both hashes
      so that they can be read back, and the size, scheme and mask. */
  lemma VerdictIsFirstFailure(sha256: Sha256, x: Authority, e: Envelope, pin: bool, v: Verdict)
    requires ValidEnvelope(e) && v == VerifyConnectionProof(sha256, x, e, pin)
    ensures v == Rejected(Malformed) <==> ParsedEnvelope(sha256, e).None?
    ensures v.Rejected? && v.stage != Malformed ==>
              exists k: nat :: FirstFailure(x, e, pin, ParsedEnvelope(sha256, e).value, k) && v.stage == CHECKS[k]
    ensures v.Verified? ==>
              && var q := ParsedEnvelope(sha256, e).value;
              && (forall k :: 0 <= k < |CHECKS| ==> Passes(x, e, pin, q, CHECKS[k]))
              && v.result.certificateCount == |q.certificateChain| && v.result.scheme == q.certificateVerifyScheme
              && v.result.mask == e.mask
    ensures v.Verified? ==>
              && ToHex(Challenge(sha256, e)) == v.result.challenge
              && ToHex(ParsedEnvelope(sha256, e).value.transcriptHash) == v.result.transcriptHash
              && DisplayHashToInternal(v.result.connectionWorkHash)
                 == Some(ParsedEnvelope(sha256, e).value.connectionWorkHash)
  {
    hide IsCanonicalDomain, Challenge, SchemeAllowed, LexAtMost, InternalHashToDisplay, MeetsWorkTarget, ParsedEnvelope,
         ToHex, FromHex, DisplayHashToInternal;
    if ParsedEnvelope(sha256, e).Some? {
      var q := ParsedEnvelope(sha256, e).value;
      TargetIsLexicographic(q.connectionWorkHash, e.target);
      DisplayRoundTrip(q.connectionWorkHash, InternalHashToDisplay(q.connectionWorkHash));
      if v.Rejected? {
        var k: nat := match v.stage
          case SchemeNotAllowed => 0 case AboveTarget => 1 case BadCertificates => 2 case BadRoots => 3
          case BadTimes => 4 case BadUsage => 5 case BadPath => 6 case _ => 7;
        assert FirstFailure(x, e, pin, q, k) && v.stage == CHECKS[k];
      }
    }
  }
}
