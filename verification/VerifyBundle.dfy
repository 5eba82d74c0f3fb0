/** The bundle acceptance verifier of src/lib/verify-bundle-v1.ts and the emitter of src/lib/emit-bundle-v1.ts. */
module VerifyBundle {
  import opened ByteStrings
  import opened Primitives
  import opened Bundles
  import SignatureText

  const BUNDLE_DOMAIN := "dacs-bundle:v1:"
  const FAULT_BUNDLE_DOMAIN := "dacs-fault-bundle:v1:"
  const EVIDENCE_BOUND_FAULT_BUNDLE_DOMAIN := "dacs-evidence-bound-fault-bundle:v1:"

  /**
   * What the verifier is built on: the primitives, the reading of claims, the canonicaliser, and the text
   * form of signatures (src/lib/verify-bundle-v1.ts:165-182 and Buffer's base64).
   */
  datatype Context = Context(
    c: Crypto,
    id: Identity,
    json: Canonicaliser,
    encodeSignature: Bytes -> string,
    decodeSignature: string -> Option<Bytes>)

  /** Signing works, and a signature's text decodes to the signature. */
  ghost predicate Works(k: Context) {
    && SignaturesWork(k.c)
    && (forall raw: Bytes :: |raw| == 64 ==>
          k.decodeSignature(k.encodeSignature(raw)) == Some(raw) && |k.encodeSignature(raw)| == 88)
  }

  /** The repository's codec is one that works. */
  lemma SignatureTextWorks(k: Context)
    requires SignaturesWork(k.c)
    requires k.encodeSignature == SignatureText.Encode && k.decodeSignature == SignatureText.DecodeEd25519Sig
    ensures Works(k)
  {
    forall raw: Bytes | |raw| == 64
      ensures k.decodeSignature(k.encodeSignature(raw)) == Some(raw) && |k.encodeSignature(raw)| == 88
    {
      SignatureText.StandardSpellingDecodes(raw);
      SignatureText.EncodeShape(raw, 21);
    }
  }

  // ------------------------------------------------------------ structural checks

  predicate IsHash64(h: string) {
    |h| == 64 && IsHex(h)
  }

  /** /^(sha256:)?[0-9a-fA-F]{64}$/ */
  predicate IsHash(h: string) {
    IsHash64(h) || (|h| == 71 && h[..7] == "sha256:" && IsHash64(h[7..]))
  }

  predicate IsPhase(p: Phase) {
    p.index >= 0 && |p.kind| > 0 && (p.outcome == "ok" || p.outcome == "fail")
  }

  predicate IsParty(k: Context, p: Party) {
    p.role in ROLES && k.id.claimKey(p.primaryClaim).Some? && IsHash(p.bundleHash)
  }

  predicate IsSignature(k: Context, s: Signature) {
    k.id.claimKey(s.party).Some? && |s.algorithm| > 0 && |s.value| > 0
  }

  predicate ListsRole(b: Bundle, role: string) {
    exists i :: 0 <= i < |b.parties| && b.parties[i].role == role
  }

  /** A fault bundle's faultedParty is in the set its outcome and anchoring role allow. */
  predicate FaultPermitted(b: Bundle) {
    if b.outcome == "completed" || b.outcome == "failed-substrate" then b.faultedParty == Some("none")
    else if b.outcome == "failed-perm" || b.outcome == "aborted-by-self" then b.faultedParty == Some(b.anchoredByRole)
    else
      && b.faultedParty.Some?
      && b.faultedParty.value != "none"
      && b.faultedParty.value != b.anchoredByRole
      && ListsRole(b, b.faultedParty.value)
  }

  predicate IsFaultBundle(b: Bundle) {
    HasFault(b) || HasEvidenceBound(b)
  }

  /** Exactly one discriminator, a supported one, equal to "1". */
  predicate SupportedVersion(v: Version) {
    v == BUNDLE_V1 || v == FAULT_BUNDLE_V1 || v == EVIDENCE_BOUND_FAULT_BUNDLE_V1
  }

  /** A fault discriminator that equals "1". */
  predicate IsFaultVersionOne(v: Version) {
    v.fault == Some("1") || v.evidenceBound == Some("1")
  }

  predicate IsCount(m: Member<int>) {
    m.Is? && m.value >= 0
  }

  predicate IsReference(r: Member<string>) {
    r.Is? && IsHash(r.value)
  }

  predicate AreReferences(rs: References) {
    rs.Is? && forall i :: 0 <= i < |rs.value| ==> IsReference(rs.value[i])
  }

  predicate IsListingRef(m: Member<ListingRef>) {
    && m.Is? && m.value.listingId.Is? && |m.value.listingId.value| > 0
    && IsCount(m.value.version) && IsReference(m.value.contentHash)
  }

  predicate WellFormedRest(r: Rest) {
    && IsListingRef(r.listingRef)
    && IsCount(r.recipeRegistryVersion) && IsCount(r.railRegistryVersion) && IsCount(r.finalisedAt)
    && AreReferences(r.vetRecords) && AreReferences(r.settlementEvidence)
    && (r.amendments.Missing? || AreReferences(r.amendments))
    && (r.ratingRefs.Missing? || AreReferences(r.ratingRefs))
    && (r.agreementRef.Missing? || (r.agreementRef.Is? && IsReference(r.agreementRef.value)))
  }

  /** Every structural rule but the one on signatures. */
  predicate WellFormedBody(k: Context, b: Bundle) {
    && SupportedVersion(b.version)
    && |b.jobId| > 0
    && b.outcome in OUTCOMES
    && b.anchoredByRole in ROLES
    && ListsRole(b, b.anchoredByRole)
    && WellFormedRest(b.rest)
    && (forall i :: 0 <= i < |b.phaseSummary| ==> IsPhase(b.phaseSummary[i]))
    && (forall i :: 0 <= i < |b.parties| ==> IsParty(k, b.parties[i]))
    && (IsFaultVersionOne(b.version) ==> FaultPermitted(b))
  }

  predicate WellFormedSignatures(k: Context, b: Bundle) {
    |b.signatures| > 0 && forall i :: 0 <= i < |b.signatures| ==> IsSignature(k, b.signatures[i])
  }

  predicate Structural(k: Context, b: Bundle) {
    WellFormedBody(k, b) && WellFormedSignatures(k, b)
  }

  datatype StructuralError =
    | Discriminator | JobId | UnknownOutcome | AnchoredByRole | PhaseEntries | PartiesMissing | FaultedParty
    | ListingReference | RegistryVersions | FinalisedAt | AttestationReferences(member: string)
    | PartyRole(i: nat) | PartyClaim(i: nat) | PartyHash(i: nat)
    | SignaturesMissing | SignatureParty(i: nat) | SignatureAlgorithm(i: nat) | SignatureValue(i: nat)

  method RestErrors(r: Rest) returns (errors: seq<StructuralError>)
    ensures errors == [] <==> WellFormedRest(r)
  {
    errors := [];
    if !IsListingRef(r.listingRef) { errors := errors + [ListingReference]; }
    if !IsCount(r.recipeRegistryVersion) || !IsCount(r.railRegistryVersion) { errors := errors + [RegistryVersions]; }
    if !IsCount(r.finalisedAt) { errors := errors + [FinalisedAt]; }
    if !AreReferences(r.vetRecords) { errors := errors + [AttestationReferences("vetRecords")]; }
    if !AreReferences(r.settlementEvidence) { errors := errors + [AttestationReferences("settlementEvidence")]; }
    if !r.amendments.Missing? && !AreReferences(r.amendments) {
      errors := errors + [AttestationReferences("amendments")];
    }
    if !r.ratingRefs.Missing? && !AreReferences(r.ratingRefs) {
      errors := errors + [AttestationReferences("ratingRefs")];
    }
    if !r.agreementRef.Missing? && !(r.agreementRef.Is? && IsReference(r.agreementRef.value)) {
      errors := errors + [AttestationReferences("agreementRef")];
    }
  }

  /** Errors are collected, not short-circuited; there are none exactly for a structural bundle. */
  method StructuralErrors(k: Context, b: Bundle) returns (errors: seq<StructuralError>)
    ensures errors == [] <==> Structural(k, b)
  {
    errors := [];
    if !SupportedVersion(b.version) { errors := errors + [Discriminator]; }
    if b.jobId == "" { errors := errors + [JobId]; }
    if b.outcome !in OUTCOMES { errors := errors + [UnknownOutcome]; }
    if b.anchoredByRole !in ROLES || !ListsRole(b, b.anchoredByRole) { errors := errors + [AnchoredByRole]; }
    var restErrors := RestErrors(b.rest);
    errors := errors + restErrors;
    if !forall i :: 0 <= i < |b.phaseSummary| ==> IsPhase(b.phaseSummary[i]) { errors := errors + [PhaseEntries]; }
    if |b.parties| == 0 { errors := errors + [PartiesMissing]; }
    ghost var header := errors == [];
    for i := 0 to |b.parties|
      invariant errors == [] <==> header && forall j :: 0 <= j < i ==> IsParty(k, b.parties[j])
    {
      var p := b.parties[i];
      if p.role !in ROLES { errors := errors + [PartyRole(i)]; }
      if k.id.claimKey(p.primaryClaim).None? { errors := errors + [PartyClaim(i)]; }
      if !IsHash(p.bundleHash) { errors := errors + [PartyHash(i)]; }
    }
    if IsFaultVersionOne(b.version) && !FaultPermitted(b) { errors := errors + [FaultedParty]; }
    ghost var body := errors == [];
    assert body <==> WellFormedBody(k, b);
    if |b.signatures| == 0 { errors := errors + [SignaturesMissing]; }
    for i := 0 to |b.signatures|
      invariant errors == [] <==>
        body && |b.signatures| > 0 && forall j :: 0 <= j < i ==> IsSignature(k, b.signatures[j])
    {
      var s := b.signatures[i];
      if k.id.claimKey(s.party).None? { errors := errors + [SignatureParty(i)]; }
      if s.algorithm == "" { errors := errors + [SignatureAlgorithm(i)]; }
      if s.value == "" { errors := errors + [SignatureValue(i)]; }
    }
  }

  // ------------------------------------------------------------------- the verdict

  datatype Decision = Accept | Reject | Indeterminate
  datatype Check = Pass | Fail | Unverifiable

  datatype Verdict = Verdict(
    decision: Decision,
    bundleHash: string,
    structurallyValid: bool,
    signerRuleSatisfied: bool,
    cryptographicallyVerified: bool,
    checks: seq<Check>)

  /** How a caller may configure the verifier: key resolution beyond raw-key claims, and the mode. */
  datatype Options = Options(requireSignatures: bool, resolvePublicKey: Claim -> Option<Bytes>)

  function NoResolver(claim: Claim): Option<Bytes> { None }

  function DomainOf(b: Bundle): string {
    if HasEvidenceBound(b) then EVIDENCE_BOUND_FAULT_BUNDLE_DOMAIN
    else if HasFault(b) then FAULT_BUNDLE_DOMAIN
    else BUNDLE_DOMAIN
  }

  function DecodedValue(k: Context, b: Bundle, s: Signature): Option<Bytes> {
    if IsFaultBundle(b) && '=' in s.value then None else k.decodeSignature(s.value)
  }

  function KeyOf(k: Context, o: Options, claim: Claim): Option<Bytes> {
    if k.id.keyBytes(claim).Some? then k.id.keyBytes(claim) else o.resolvePublicKey(claim)
  }

  /** A malformed value fails even when the signer's key cannot be resolved. */
  function CheckSignature(k: Context, o: Options, b: Bundle, hash: string, s: Signature): Check {
    if s.algorithm != "ed25519" then Unverifiable
    else
      match DecodedValue(k, b, s)
      case None => Fail
      case Some(sig) =>
        match KeyOf(k, o, s.party)
        case None => Unverifiable
        case Some(key) => if k.c.verify(DomainOf(b), sig, k.c.utf8(hash), key) then Pass else Fail
  }

  function Checks(k: Context, o: Options, b: Bundle, hash: string): (checks: seq<Check>)
    ensures |checks| == |b.signatures|
    ensures forall i :: 0 <= i < |checks| ==> checks[i] == CheckSignature(k, o, b, hash, b.signatures[i])
  {
    seq(|b.signatures|, i requires 0 <= i < |b.signatures| => CheckSignature(k, o, b, hash, b.signatures[i]))
  }

  predicate IsListed(k: Context, b: Bundle, key: Option<string>) {
    exists i :: 0 <= i < |b.parties| && k.id.claimKey(b.parties[i].primaryClaim) == key
  }

  predicate HasSigned(k: Context, b: Bundle, key: Option<string>) {
    exists i :: 0 <= i < |b.signatures| && k.id.claimKey(b.signatures[i].party) == key
  }

  /** No unlisted signer; unless the session was aborted, a buyer, a seller and everyone's signature. */
  predicate SignerRule(k: Context, b: Bundle) {
    && (forall i :: 0 <= i < |b.signatures| ==> IsListed(k, b, k.id.claimKey(b.signatures[i].party)))
    && (if b.outcome in NON_ABORT then
          && ListsRole(b, "buyer")
          && ListsRole(b, "seller")
          && (forall i :: 0 <= i < |b.parties| ==> HasSigned(k, b, k.id.claimKey(b.parties[i].primaryClaim)))
        else |b.signatures| >= 1)
  }

  function Decide(signerRule: bool, checks: seq<Check>, requireSignatures: bool): Decision {
    if !signerRule || Fail in checks then Reject
    else if requireSignatures && !(|checks| > 0 && forall i :: 0 <= i < |checks| ==> checks[i] == Pass)
      then Indeterminate
    else Accept
  }

  /** verifyBundleV1; None when the scope cannot be canonicalised and the source throws. */
  function VerifyBundleV1(k: Context, o: Options, b: Bundle): Option<Verdict> {
    if !Structural(k, b) then Some(Verdict(Reject, "", false, false, false, []))
    else
      match ScopeHash(k.c.hash, k.json, b)
      case None => None
      case Some(hash) =>
        var checks := Checks(k, o, b, hash);
        var allPass := |checks| > 0 && forall i :: 0 <= i < |checks| ==> checks[i] == Pass;
        var decision := Decide(SignerRule(k, b), checks, o.requireSignatures);
        Some(Verdict(decision, hash, true, SignerRule(k, b), allPass, checks))
  }

  predicate Accepted(k: Context, o: Options, b: Bundle) {
    var v := VerifyBundleV1(k, o, b);
    v.Some? && v.value.decision == Accept
  }

  /** Somebody holding a key of the claims named `key` signed the scope under the bundle's own domain. */
  ghost predicate SignedBy(k: Context, o: Options, b: Bundle, key: Option<string>) {
    exists i, sig, publicKey ::
      && 0 <= i < |b.signatures|
      && k.id.claimKey(b.signatures[i].party) == key
      && DecodedValue(k, b, b.signatures[i]) == Some(sig)
      && KeyOf(k, o, b.signatures[i].party) == Some(publicKey)
      && ScopeHash(k.c.hash, k.json, b).Some?
      && k.c.verify(DomainOf(b), sig, k.c.utf8(ScopeHash(k.c.hash, k.json, b).value), publicKey)
  }

  lemma PassingCheckIsASignature(k: Context, o: Options, b: Bundle, i: nat)
    requires i < |b.signatures| && ScopeHash(k.c.hash, k.json, b).Some?
    requires CheckSignature(k, o, b, ScopeHash(k.c.hash, k.json, b).value, b.signatures[i]) == Pass
    ensures SignedBy(k, o, b, k.id.claimKey(b.signatures[i].party))
  {
    var sig := DecodedValue(k, b, b.signatures[i]).value;
    var key := KeyOf(k, o, b.signatures[i].party).value;
    assert k.c.verify(DomainOf(b), sig, k.c.utf8(ScopeHash(k.c.hash, k.json, b).value), key);
  }

  lemma AcceptedFacts(k: Context, o: Options, b: Bundle)
    requires Accepted(k, o, b)
    ensures Structural(k, b) && SignerRule(k, b) && ScopeHash(k.c.hash, k.json, b).Some?
    ensures o.requireSignatures ==> forall i :: 0 <= i < |b.signatures| ==>
      CheckSignature(k, o, b, ScopeHash(k.c.hash, k.json, b).value, b.signatures[i]) == Pass
  {
    var hash := ScopeHash(k.c.hash, k.json, b).value;
    var checks := Checks(k, o, b, hash);
    if o.requireSignatures {
      forall i | 0 <= i < |b.signatures|
        ensures CheckSignature(k, o, b, hash, b.signatures[i]) == Pass
      {
        assert checks[i] == Pass;
      }
    }
  }

  /**
   * What enforcing acceptance is worth: each signature is a listed party's over this scope, and unless the
   * session was aborted every listed party has signed.
   */
  lemma AcceptedBundleIsSigned(k: Context, o: Options, b: Bundle)
    requires o.requireSignatures && Accepted(k, o, b)
    ensures |b.signatures| > 0
    ensures forall i :: 0 <= i < |b.signatures| ==>
      IsListed(k, b, k.id.claimKey(b.signatures[i].party)) && SignedBy(k, o, b, k.id.claimKey(b.signatures[i].party))
    ensures b.outcome in NON_ABORT ==>
      ListsRole(b, "buyer") && ListsRole(b, "seller") &&
      forall i :: 0 <= i < |b.parties| ==> SignedBy(k, o, b, k.id.claimKey(b.parties[i].primaryClaim))
  {
    AcceptedFacts(k, o, b);
    forall i | 0 <= i < |b.signatures| ensures SignedBy(k, o, b, k.id.claimKey(b.signatures[i].party)) {
      PassingCheckIsASignature(k, o, b, i);
    }
    if b.outcome in NON_ABORT {
      forall i | 0 <= i < |b.parties| ensures SignedBy(k, o, b, k.id.claimKey(b.parties[i].primaryClaim)) {
        assert HasSigned(k, b, k.id.claimKey(b.parties[i].primaryClaim));
        var j :|
          0 <= j < |b.signatures| && k.id.claimKey(b.signatures[j].party) == k.id.claimKey(b.parties[i].primaryClaim);
        assert SignedBy(k, o, b, k.id.claimKey(b.signatures[j].party));
      }
    }
  }

  /** The mode never turns a rejection into anything else; enforcing only withholds acceptance. */
  lemma ModesAgreeOnRejection(k: Context, o: Options, b: Bundle)
    ensures
      var strict := VerifyBundleV1(k, o.(requireSignatures := true), b);
      var fixture := VerifyBundleV1(k, o.(requireSignatures := false), b);
      && (strict.None? <==> fixture.None?)
      && (strict.Some? ==>
            && (strict.value.decision == Reject <==> fixture.value.decision == Reject)
            && (strict.value.decision == Accept ==> fixture.value.decision == Accept)
            && fixture.value.decision != Indeterminate
            && strict.value.checks == fixture.value.checks)
  {
    if Structural(k, b) && ScopeHash(k.c.hash, k.json, b).Some? {
      var hash := ScopeHash(k.c.hash, k.json, b).value;
      assert Checks(k, o.(requireSignatures := true), b, hash) == Checks(k, o.(requireSignatures := false), b, hash);
    }
  }

  method MeetsSignerRule(k: Context, b: Bundle) returns (ok: bool)
    ensures ok <==> SignerRule(k, b)
  {
    ok := true;
    for i := 0 to |b.signatures|
      invariant ok <==> forall j :: 0 <= j < i ==> IsListed(k, b, k.id.claimKey(b.signatures[j].party))
    {
      if !IsListed(k, b, k.id.claimKey(b.signatures[i].party)) { ok := false; }
    }
    if b.outcome !in NON_ABORT {
      if |b.signatures| < 1 { ok := false; }
      return;
    }
    if !ListsRole(b, "buyer") || !ListsRole(b, "seller") { ok := false; }
    ghost var listed := ok;
    for i := 0 to |b.parties|
      invariant ok <==> listed && forall j :: 0 <= j < i ==> HasSigned(k, b, k.id.claimKey(b.parties[j].primaryClaim))
    {
      if !HasSigned(k, b, k.id.claimKey(b.parties[i].primaryClaim)) { ok := false; }
    }
  }

  method VerifyBundle(k: Context, o: Options, b: Bundle) returns (verdict: Option<Verdict>)
    ensures verdict == VerifyBundleV1(k, o, b)
  {
    var errors := StructuralErrors(k, b);
    if errors != [] {
      return Some(Verdict(Reject, "", false, false, false, []));
    }
    var hash := ScopeHash(k.c.hash, k.json, b);
    if hash.None? {
      return None;
    }
    var signerRule := MeetsSignerRule(k, b);
    var checks := Checks(k, o, b, hash.value);
    var allPass := |checks| > 0 && forall i :: 0 <= i < |checks| ==> checks[i] == Pass;
    var decision := Accept;
    if !signerRule || Fail in checks {
      decision := Reject;
    } else if o.requireSignatures && !allPass {
      decision := Indeterminate;
    }
    verdict := Some(Verdict(decision, hash.value, true, signerRule, allPass, checks));
  }

  // --------------------------------------------------------------------- emission

  datatype Signer = Signer(party: Claim, privKey: Bytes, algorithm: Option<string>)

  function SignatureOf(k: Context, hash: string, s: Signer): Signature {
    Signature(
      s.party,
      if s.algorithm.Some? then s.algorithm.value else "ed25519",
      k.encodeSignature(k.c.sign(BUNDLE_DOMAIN, k.c.utf8(hash), s.privKey)))
  }

  /** emitAttestationBundleV1; None where it throws: no signer, or a scope that cannot be canonicalised. */
  function Emit(k: Context, unsigned: Bundle, signers: seq<Signer>): Option<Bundle> {
    if |signers| == 0 then None
    else
      match ScopeHash(k.c.hash, k.json, unsigned)
      case None => None
      case Some(hash) =>
        Some(unsigned.(signatures := seq(|signers|, i requires 0 <= i < |signers| => SignatureOf(k, hash, signers[i]))))
  }

  predicate Signs(k: Context, signers: seq<Signer>, key: Option<string>) {
    exists j :: 0 <= j < |signers| && k.id.claimKey(signers[j].party) == key
  }

  /** Every signer is a listed party signing with the key its claim carries, and every party signs. */
  predicate AllPartiesSign(k: Context, b: Bundle, signers: seq<Signer>) {
    && |signers| > 0
    && (forall i :: 0 <= i < |signers| ==>
          && (signers[i].algorithm == None || signers[i].algorithm == Some("ed25519"))
          && k.id.claimKey(signers[i].party).Some?
          && k.id.keyBytes(signers[i].party) == Some(k.c.publicKey(signers[i].privKey))
          && IsListed(k, b, k.id.claimKey(signers[i].party)))
    && (forall i :: 0 <= i < |b.parties| ==> Signs(k, signers, k.id.claimKey(b.parties[i].primaryClaim)))
  }

  lemma RawSignatureVerifies(k: Context, body: Bytes, privKey: Bytes)
    requires Works(k)
    ensures
      var raw := k.c.sign(BUNDLE_DOMAIN, body, privKey);
      && k.decodeSignature(k.encodeSignature(raw)) == Some(raw) && k.encodeSignature(raw) != ""
      && k.c.verify(BUNDLE_DOMAIN, raw, body, k.c.publicKey(privKey))
  {
  }

  lemma SignerVerifies(k: Context, o: Options, b: Bundle, hash: string, s: Signer)
    requires Works(k) && b.version == BUNDLE_V1
    requires s.algorithm == None || s.algorithm == Some("ed25519")
    requires k.id.keyBytes(s.party) == Some(k.c.publicKey(s.privKey))
    ensures CheckSignature(k, o, b, hash, SignatureOf(k, hash, s)) == Pass
    ensures SignatureOf(k, hash, s).value != ""
  {
    RawSignatureVerifies(k, k.c.utf8(hash), s.privKey);
    CheckSpelled(k, o, b, hash, SignatureOf(k, hash, s));
  }

  lemma EmittedSignaturePasses(k: Context, o: Options, unsigned: Bundle, signers: seq<Signer>, i: nat)
    requires Works(k) && unsigned.version == BUNDLE_V1 && ScopeHash(k.c.hash, k.json, unsigned).Some?
    requires AllPartiesSign(k, unsigned, signers) && i < |signers|
    ensures
      var b := Emit(k, unsigned, signers).value;
      && CheckSignature(k, o, b, ScopeHash(k.c.hash, k.json, unsigned).value, b.signatures[i]) == Pass
      && IsSignature(k, b.signatures[i])
  {
    var b := Emit(k, unsigned, signers).value;
    var hash := ScopeHash(k.c.hash, k.json, unsigned).value;
    assert b.signatures[i] == SignatureOf(k, hash, signers[i]);
    SignerVerifies(k, o, b, hash, signers[i]);
  }

  lemma EmittedRoster(k: Context, unsigned: Bundle, signers: seq<Signer>)
    requires ScopeHash(k.c.hash, k.json, unsigned).Some? && AllPartiesSign(k, unsigned, signers)
    requires unsigned.outcome in NON_ABORT ==> ListsRole(unsigned, "buyer") && ListsRole(unsigned, "seller")
    ensures SignerRule(k, Emit(k, unsigned, signers).value)
  {
    var b := Emit(k, unsigned, signers).value;
    var hash := ScopeHash(k.c.hash, k.json, unsigned).value;
    assert b.parties == unsigned.parties && b.outcome == unsigned.outcome;
    forall i | 0 <= i < |b.signatures| ensures IsListed(k, b, k.id.claimKey(b.signatures[i].party)) {
      assert b.signatures[i] == SignatureOf(k, hash, signers[i]);
      var key := k.id.claimKey(signers[i].party);
      assert IsListed(k, unsigned, key);
    }
    forall i | 0 <= i < |b.parties| ensures HasSigned(k, b, k.id.claimKey(b.parties[i].primaryClaim)) {
      var key := k.id.claimKey(unsigned.parties[i].primaryClaim);
      assert Signs(k, signers, key);
      var j :| 0 <= j < |signers| && k.id.claimKey(signers[j].party) == key;
      assert b.signatures[j] == SignatureOf(k, hash, signers[j]);
    }
    if b.outcome in NON_ABORT {
      assert ListsRole(b, "buyer") && ListsRole(b, "seller");
    }
  }

  lemma EmittedIsStructural(k: Context, unsigned: Bundle, signers: seq<Signer>)
    requires Works(k) && unsigned.version == BUNDLE_V1 && ScopeHash(k.c.hash, k.json, unsigned).Some?
    requires WellFormedBody(k, unsigned) && AllPartiesSign(k, unsigned, signers)
    ensures Structural(k, Emit(k, unsigned, signers).value)
  {
    var b := Emit(k, unsigned, signers).value;
    assert b.parties == unsigned.parties && b.phaseSummary == unsigned.phaseSummary;
    assert ListsRole(b, b.anchoredByRole) by { assert ListsRole(unsigned, unsigned.anchoredByRole); }
    forall i | 0 <= i < |b.signatures| ensures IsSignature(k, b.signatures[i]) {
      EmittedSignaturePasses(k, Options(true, NoResolver), unsigned, signers, i);
    }
  }

  lemma PassesDecide(checks: seq<Check>, requireSignatures: bool)
    requires |checks| > 0 && forall i :: 0 <= i < |checks| ==> checks[i] == Pass
    ensures Decide(true, checks, requireSignatures) == Accept
  {
  }

  /** Emit, then verify: a well-formed bundle all its parties sign is accepted in either mode, all checks passing. */
  lemma EmittedBundleIsAccepted(
      k: Context, o: Options, unsigned: Bundle, signers: seq<Signer>)
    requires Works(k) && unsigned.version == BUNDLE_V1 && ScopeHash(k.c.hash, k.json, unsigned).Some?
    requires WellFormedBody(k, unsigned) && AllPartiesSign(k, unsigned, signers)
    requires unsigned.outcome in NON_ABORT ==> ListsRole(unsigned, "buyer") && ListsRole(unsigned, "seller")
    ensures Emit(k, unsigned, signers).Some?
    ensures Accepted(k, o, Emit(k, unsigned, signers).value)
    ensures VerifyBundleV1(k, o, Emit(k, unsigned, signers).value).value.cryptographicallyVerified
  {
    var b := Emit(k, unsigned, signers).value;
    var hash := ScopeHash(k.c.hash, k.json, unsigned).value;
    CopiesShareScope(k.c.hash, k.json, unsigned, b);
    EmittedIsStructural(k, unsigned, signers);
    EmittedRoster(k, unsigned, signers);
    var checks := Checks(k, o, b, hash);
    forall i | 0 <= i < |checks| ensures checks[i] == Pass {
      EmittedSignaturePasses(k, o, unsigned, signers, i);
    }
    PassesDecide(checks, o.requireSignatures);
  }

  /** Why the anchoring role is outside the scope: it can be flipped after signing and every check still passes. */
  lemma AnchoringRoleIsUnsigned(k: Context, o: Options, b: Bundle, role: string, hash: string)
    ensures ScopeHash(k.c.hash, k.json, b.(anchoredByRole := role)) == ScopeHash(k.c.hash, k.json, b)
    ensures Checks(k, o, b.(anchoredByRole := role), hash) == Checks(k, o, b, hash)
    ensures SignerRule(k, b.(anchoredByRole := role)) <==> SignerRule(k, b)
  {
    var flipped := b.(anchoredByRole := role);
    CopiesShareScope(k.c.hash, k.json, b, flipped);
    assert forall key :: IsListed(k, flipped, key) <==> IsListed(k, b, key);
    assert forall key :: HasSigned(k, flipped, key) <==> HasSigned(k, b, key);
    assert forall r :: ListsRole(flipped, r) <==> ListsRole(b, r);
  }

  // ------------------------------------------------------------- the rules, spelled out

  /** 64 hex digits, perhaps after "sha256:". */
  ghost predicate IsDigestText(h: string) {
    exists digits :: AreDigestDigits(digits) && (h == digits || h == "sha256:" + digits)
  }

  predicate AreDigestDigits(digits: string) {
    |digits| == 64 && forall i :: 0 <= i < 64 ==> IsHexDigit(digits[i])
  }

  lemma HashSpelled(h: string)
    ensures IsHash(h) <==> IsDigestText(h)
  {
    if IsHash(h) {
      if IsHash64(h) {
        assert AreDigestDigits(h);
      } else {
        assert AreDigestDigits(h[7..]) && h == "sha256:" + h[7..];
      }
    }
    if digits :| AreDigestDigits(digits) && (h == digits || h == "sha256:" + digits) {
      if h != digits { assert h[..7] == "sha256:" && h[7..] == digits; }
    }
  }

  /** A list whose every entry carries a digest. */
  ghost predicate CarryDigests(rs: References) {
    rs.Is? && forall i :: 0 <= i < |rs.value| ==> rs.value[i].Is? && IsDigestText(rs.value[i].value)
  }

  /** The members only these checks look into: the listing, three counts and five kinds of reference. */
  ghost predicate RestIsWellFormed(r: Rest) {
    && r.listingRef.Is? && r.listingRef.value.listingId.Is? && r.listingRef.value.listingId.value != ""
    && r.listingRef.value.version.Is? && r.listingRef.value.version.value >= 0
    && r.listingRef.value.contentHash.Is? && IsDigestText(r.listingRef.value.contentHash.value)
    && r.recipeRegistryVersion.Is? && r.recipeRegistryVersion.value >= 0
    && r.railRegistryVersion.Is? && r.railRegistryVersion.value >= 0
    && r.finalisedAt.Is? && r.finalisedAt.value >= 0
    && CarryDigests(r.vetRecords) && CarryDigests(r.settlementEvidence)
    && (!r.amendments.Missing? ==> CarryDigests(r.amendments))
    && (!r.ratingRefs.Missing? ==> CarryDigests(r.ratingRefs))
    && (!r.agreementRef.Missing? ==>
          r.agreementRef.Is? && r.agreementRef.value.Is? && IsDigestText(r.agreementRef.value.value))
  }

  lemma RestSpelled(r: Rest)
    ensures WellFormedRest(r) <==> RestIsWellFormed(r)
  {
    forall h ensures IsHash(h) <==> IsDigestText(h) { HashSpelled(h); }
  }

  /** The fault a fault bundle may name: nobody, its own side, or another listed role, as its outcome says. */
  predicate MayNameFault(b: Bundle) {
    && b.faultedParty.Some?
    && (if b.outcome == "completed" || b.outcome == "failed-substrate" then b.faultedParty.value == "none"
        else if b.outcome == "failed-perm" || b.outcome == "aborted-by-self" then
          b.faultedParty.value == b.anchoredByRole
        else
          && b.faultedParty.value != "none" && b.faultedParty.value != b.anchoredByRole
          && exists i :: 0 <= i < |b.parties| && b.parties[i].role == b.faultedParty.value)
  }

  predicate IsARole(role: string) {
    role == "buyer" || role == "seller" || role == "orchestrator"
  }

  predicate IsAnOutcome(outcome: string) {
    || outcome == "completed" || outcome == "failed-perm" || outcome == "failed-counterparty"
    || outcome == "failed-substrate" || outcome == "aborted-by-self" || outcome == "aborted-by-other"
  }

  /** One discriminator, with the value "1", and it is one of the three known ones. */
  predicate IsKnownVersion(v: Version) {
    && !v.other
    && ((v.plain == Some("1") && v.fault.None? && v.evidenceBound.None?)
        || (v.fault == Some("1") && v.plain.None? && v.evidenceBound.None?)
        || (v.evidenceBound == Some("1") && v.plain.None? && v.fault.None?))
  }

  /** Everything the structural checks ask for. */
  ghost predicate IsWellFormed(k: Context, b: Bundle) {
    && IsKnownVersion(b.version) && b.jobId != "" && IsAnOutcome(b.outcome) && IsARole(b.anchoredByRole)
    && (exists i :: 0 <= i < |b.parties| && b.parties[i].role == b.anchoredByRole)
    && RestIsWellFormed(b.rest)
    && (forall i :: 0 <= i < |b.phaseSummary| ==>
          && b.phaseSummary[i].index >= 0 && b.phaseSummary[i].kind != ""
          && (b.phaseSummary[i].outcome == "ok" || b.phaseSummary[i].outcome == "fail"))
    && (forall i :: 0 <= i < |b.parties| ==>
          && IsARole(b.parties[i].role) && k.id.claimKey(b.parties[i].primaryClaim).Some?
          && IsDigestText(b.parties[i].bundleHash))
    && (b.version.plain.None? ==> MayNameFault(b))
    && b.signatures != []
    && (forall i :: 0 <= i < |b.signatures| ==>
          && k.id.claimKey(b.signatures[i].party).Some?
          && b.signatures[i].algorithm != "" && b.signatures[i].value != "")
  }

  lemma RolesAndOutcomesSpelled(b: Bundle)
    ensures b.anchoredByRole in ROLES <==> IsARole(b.anchoredByRole)
    ensures forall i :: 0 <= i < |b.parties| ==> (b.parties[i].role in ROLES <==> IsARole(b.parties[i].role))
    ensures b.outcome in OUTCOMES <==> IsAnOutcome(b.outcome)
  {
  }

  lemma VersionSpelled(v: Version)
    ensures SupportedVersion(v) <==> IsKnownVersion(v)
    ensures SupportedVersion(v) ==> (IsFaultVersionOne(v) <==> v.plain.None?)
  {
  }

  lemma FaultSpelled(b: Bundle)
    ensures FaultPermitted(b) <==> MayNameFault(b)
  {
  }

  lemma StructuralSpelled(k: Context, b: Bundle)
    ensures Structural(k, b) <==> IsWellFormed(k, b)
  {
    RestSpelled(b.rest);
    RolesAndOutcomesSpelled(b);
    VersionSpelled(b.version);
    FaultSpelled(b);
    forall h ensures IsHash(h) <==> IsDigestText(h) { HashSpelled(h); }
  }

  /** The text an ed25519 signature of this bundle verifies under. */
  function SigningDomain(b: Bundle): string {
    if b.version.evidenceBound.Some? then "dacs-evidence-bound-fault-bundle:v1:"
    else if b.version.fault.Some? then "dacs-fault-bundle:v1:"
    else "dacs-bundle:v1:"
  }

  /** The signature's bytes; the fault bundles' encoding admits no padding. */
  function ReadSignature(k: Context, b: Bundle, value: string): Option<Bytes> {
    if b.version.plain.None? && (b.version.fault.Some? || b.version.evidenceBound.Some?) && '=' in value then None
    else k.decodeSignature(value)
  }

  /** The check of one signature over `hash`: unverifiable without algorithm or key, else whether it verifies. */
  lemma CheckSpelled(k: Context, o: Options, b: Bundle, hash: string, s: Signature)
    requires b.version.plain.None? || (b.version.fault.None? && b.version.evidenceBound.None?)
    ensures
      var sig := ReadSignature(k, b, s.value);
      var key := if k.id.keyBytes(s.party).Some? then k.id.keyBytes(s.party) else o.resolvePublicKey(s.party);
      && (CheckSignature(k, o, b, hash, s) == Pass <==>
            && s.algorithm == "ed25519" && sig.Some? && key.Some?
            && k.c.verify(SigningDomain(b), sig.value, k.c.utf8(hash), key.value))
      && (CheckSignature(k, o, b, hash, s) == Fail <==>
            && s.algorithm == "ed25519"
            && (sig.None? || (key.Some? && !k.c.verify(SigningDomain(b), sig.value, k.c.utf8(hash), key.value))))
  {
  }

  predicate IsAPartysKey(k: Context, b: Bundle, key: Option<string>) {
    exists j :: 0 <= j < |b.parties| && k.id.claimKey(b.parties[j].primaryClaim) == key
  }

  predicate IsASignersKey(k: Context, b: Bundle, key: Option<string>) {
    exists i :: 0 <= i < |b.signatures| && k.id.claimKey(b.signatures[i].party) == key
  }

  predicate HasPartyAs(b: Bundle, role: string) {
    exists j :: 0 <= j < |b.parties| && b.parties[j].role == role
  }

  /** Every signer is a listed party; unless the session was aborted there are buyer and seller and all signed. */
  predicate SignersAreRight(k: Context, b: Bundle) {
    && (forall i :: 0 <= i < |b.signatures| ==> IsAPartysKey(k, b, k.id.claimKey(b.signatures[i].party)))
    && (b.outcome != "aborted-by-self" && b.outcome != "aborted-by-other" ==>
          && HasPartyAs(b, "buyer") && HasPartyAs(b, "seller")
          && forall j :: 0 <= j < |b.parties| ==> IsASignersKey(k, b, k.id.claimKey(b.parties[j].primaryClaim)))
  }

  lemma NonAbortSpelled(outcome: string)
    requires IsAnOutcome(outcome)
    ensures outcome in NON_ABORT <==> outcome != "aborted-by-self" && outcome != "aborted-by-other"
  {
  }

  lemma SignerRuleSpelled(k: Context, b: Bundle)
    requires IsAnOutcome(b.outcome) && b.signatures != []
    ensures SignerRule(k, b) <==> SignersAreRight(k, b)
  {
    NonAbortSpelled(b.outcome);
    forall key ensures IsListed(k, b, key) <==> IsAPartysKey(k, b, key) {
    }
    forall key ensures HasSigned(k, b, key) <==> IsASignersKey(k, b, key) {
    }
    forall role ensures ListsRole(b, role) <==> HasPartyAs(b, role) {
    }
  }

  /** Rejected for signers or a failed check; undecided when enforcing and some check did not pass; else accepted. */
  lemma DecisionSpelled(signersAreRight: bool, checks: seq<Check>, requireSignatures: bool)
    requires |checks| > 0
    ensures Decide(signersAreRight, checks, requireSignatures) ==
      if !signersAreRight || (exists i :: 0 <= i < |checks| && checks[i] == Fail) then Reject
      else if requireSignatures && (exists i :: 0 <= i < |checks| && checks[i] != Pass) then Indeterminate
      else Accept
  {
  }

  /** What the verdict on a well-formed bundle with this scope hash says. */
  ghost predicate VerdictMeans(k: Context, o: Options, b: Bundle, hash: string, v: Verdict) {
    && v.bundleHash == hash && v.structurallyValid && (v.signerRuleSatisfied <==> SignersAreRight(k, b))
    && |v.checks| == |b.signatures|
    && (forall i :: 0 <= i < |v.checks| ==> v.checks[i] == CheckSignature(k, o, b, hash, b.signatures[i]))
    && (v.cryptographicallyVerified <==> forall i :: 0 <= i < |v.checks| ==> v.checks[i] == Pass)
    && v.decision == (
        if !SignersAreRight(k, b) || (exists i :: 0 <= i < |v.checks| && v.checks[i] == Fail) then Reject
        else if o.requireSignatures && (exists i :: 0 <= i < |v.checks| && v.checks[i] != Pass) then Indeterminate
        else Accept)
  }

  lemma JudgedVerdictMeans(k: Context, o: Options, b: Bundle)
    requires Structural(k, b) && ScopeHash(k.c.hash, k.json, b).Some?
    ensures VerifyBundleV1(k, o, b).Some?
    ensures (SignerRule(k, b) <==> SignersAreRight(k, b)) ==>
      VerdictMeans(k, o, b, ScopeHash(k.c.hash, k.json, b).value, VerifyBundleV1(k, o, b).value)
  {
    DecisionSpelled(SignerRule(k, b), Checks(k, o, b, ScopeHash(k.c.hash, k.json, b).value), o.requireSignatures);
  }

  /**
   * The verdict: a malformed bundle is rejected, a scope that cannot be canonicalised throws, and else the bundle is
   * judged by its signers and the checks of its signatures over the hex hash of the scope.
   */
  lemma VerdictSpelled(k: Context, o: Options, b: Bundle)
    ensures !IsWellFormed(k, b) ==>
      VerifyBundleV1(k, o, b) == Some(Verdict(Reject, "", false, false, false, []))
    ensures IsWellFormed(k, b) ==> (VerifyBundleV1(k, o, b).None? <==> k.json.scope(ScopeOf(b)).None?)
    ensures IsWellFormed(k, b) && k.json.scope(ScopeOf(b)).Some? ==>
      VerdictMeans(k, o, b, BytesToHex(k.c.hash(k.json.scope(ScopeOf(b)).value)), VerifyBundleV1(k, o, b).value)
  {
    StructuralSpelled(k, b);
    if Structural(k, b) && k.json.scope(ScopeOf(b)).Some? {
      WellFormedHasOutcome(k, b);
      SignerRuleSpelled(k, b);
      JudgedVerdictMeans(k, o, b);
    }
  }

  lemma WellFormedHasOutcome(k: Context, b: Bundle)
    requires IsWellFormed(k, b)
    ensures IsAnOutcome(b.outcome) && b.signatures != []
  {
  }

  /** The emitter signs the scope hash under the plain bundle's domain, once per signer, and changes nothing else. */
  lemma EmissionSpelled(k: Context, unsigned: Bundle, signers: seq<Signer>)
    ensures Emit(k, unsigned, signers).Some? <==> signers != [] && k.json.scope(ScopeOf(unsigned)).Some?
    ensures Emit(k, unsigned, signers).Some? ==>
      var b := Emit(k, unsigned, signers).value;
      && b == unsigned.(signatures := b.signatures) && |b.signatures| == |signers|
      && forall i :: 0 <= i < |signers| ==>
          && b.signatures[i].party == signers[i].party
          && b.signatures[i].algorithm == (if signers[i].algorithm.Some? then signers[i].algorithm.value else "ed25519")
          && b.signatures[i].value == k.encodeSignature(k.c.sign(
               "dacs-bundle:v1:", k.c.utf8(BytesToHex(k.c.hash(k.json.scope(ScopeOf(unsigned)).value))),
               signers[i].privKey))
  {
  }
}
