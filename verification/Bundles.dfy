/** DACS-5 bundles as the bundle verifiers read them, and the signed scope of src/lib/bundle-signed-scope-v1.ts. */
module Bundles {
  import opened ByteStrings
  import opened Primitives

  datatype Claim = TextClaim(text: string) | ObjectClaim(ref: ClaimRef)

  /** claimKey, the logical signer behind a claim, and keyBytes, the raw key a claim carries. */
  datatype Identity = Identity(claimKey: Claim -> Option<string>, keyBytes: Claim -> Option<Bytes>)

  /**
   * The discriminators present: bundleVersion, faultBundleVersion, evidenceBoundFaultBundleVersion, and whether there
   * is any other member whose name ends in BundleVersion.
   */
  datatype Version = Version(plain: Option<string>, fault: Option<string>, evidenceBound: Option<string>, other: bool)

  const BUNDLE_V1 := Version(Some("1"), None, None, false)
  const FAULT_BUNDLE_V1 := Version(None, Some("1"), None, false)
  const EVIDENCE_BOUND_FAULT_BUNDLE_V1 := Version(None, None, Some("1"), false)

  /** A member that may be missing or of the wrong JSON type. */
  datatype Member<T> = Missing | IllTyped | Is(value: T)

  datatype ListingRef = ListingRef(listingId: Member<string>, version: Member<int>, contentHash: Member<string>)

  /** The content hash an attestation reference carries, if it is an object with one. */
  type References = Member<seq<Member<string>>>

  /** The members that only the structural checks look into; `unread` holds the others. */
  datatype Rest = Rest(
    listingRef: Member<ListingRef>,
    recipeRegistryVersion: Member<int>,
    railRegistryVersion: Member<int>,
    finalisedAt: Member<int>,
    vetRecords: References,
    settlementEvidence: References,
    amendments: References,
    ratingRefs: References,
    agreementRef: Member<Member<string>>,
    unread: Json
  )

  datatype Party = Party(role: string, primaryClaim: Claim, bundleHash: string)

  /** `errorClass` None stands for absent and for null, which every reader identifies. */
  datatype Phase = Phase(index: int, kind: string, outcome: string, errorClass: Option<string>)

  datatype Signature = Signature(party: Claim, algorithm: string, value: string)

  datatype Bundle = Bundle(
    version: Version,
    jobId: string,
    outcome: string,
    anchoredByRole: string,
    faultedParty: Option<string>,
    parties: seq<Party>,
    phaseSummary: seq<Phase>,
    signatures: seq<Signature>,
    rest: Rest
  )

  const ROLES := {"buyer", "seller", "orchestrator"}
  const NON_ABORT := {"completed", "failed-perm", "failed-counterparty", "failed-substrate"}
  const ABORT := {"aborted-by-self", "aborted-by-other"}
  const OUTCOMES := NON_ABORT + ABORT

  /** `'evidenceBoundFaultBundleVersion' in bundle` and `'faultBundleVersion' in bundle`, whatever their value. */
  predicate HasEvidenceBound(b: Bundle) { b.version.evidenceBound.Some? }

  predicate HasFault(b: Bundle) { b.version.fault.Some? }

  /** A bundle without `signatures` and `anchoredByRole`: what its signers sign. */
  datatype Scope = Scope(
    version: Version,
    jobId: string,
    outcome: string,
    faultedParty: Option<string>,
    parties: seq<Party>,
    phaseSummary: seq<Phase>,
    rest: Rest
  )

  function ScopeOf(b: Bundle): Scope {
    Scope(b.version, b.jobId, b.outcome, b.faultedParty, b.parties, b.phaseSummary, b.rest)
  }

  /** JCS over the members of a scope and of a whole bundle; None where the canonicaliser throws. */
  datatype Canonicaliser = Canonicaliser(scope: Scope -> Option<Bytes>, bundle: Bundle -> Option<Bytes>)

  ghost predicate BundleJcsIsInjective(j: Canonicaliser) {
    forall a, b :: j.bundle(a).Some? && j.bundle(a) == j.bundle(b) ==> a == b
  }

  /** bundleSignedScopeHashV1: hex SHA-256 of the canonical scope. */
  function ScopeHash(hash: Bytes -> Digest, j: Canonicaliser, b: Bundle): Option<string> {
    match j.scope(ScopeOf(b))
    case None => None
    case Some(json) => Some(BytesToHex(hash(json)))
  }

  /** Copies share a scope, and so its hash, exactly when they differ in the anchoring role and signatures alone. */
  lemma CopiesShareScope(hash: Bytes -> Digest, j: Canonicaliser, a: Bundle, b: Bundle)
    ensures ScopeOf(a) == ScopeOf(b) <==> b == a.(anchoredByRole := b.anchoredByRole, signatures := b.signatures)
    ensures ScopeOf(a) == ScopeOf(b) ==> ScopeHash(hash, j, a) == ScopeHash(hash, j, b)
  {
  }
}
