/** Dispute-evidence bundles of src/lib/dispute.ts: one presenter, one challenge, one use. */
module Dispute {
  import opened ByteStrings
  import opened Primitives
  import Consent
  import Disclose
  import Merkle
  import opened TextSearch

  const DISPUTE_BUNDLE_SEP := "dacs-x-dispute-bundle:v1:"
  const MIN_RECEIPT_ID_HEX_LEN := 32

  /** The \x1f character joining the parts of a consumption key. */
  const UNIT_SEPARATOR: char := '\U{1f}'

  datatype EvidenceBundle = EvidenceBundle(
    presentationPubKey: string,
    signedRoot: string,
    rootSig: string,
    disclosures: seq<Disclose.DisclosedClaim>,
    consentLedger: seq<Consent.ConsentRecord>
  )

  datatype Options = Options(
    expectedVerifierId: string,
    expectedNonce: string,
    minReceiptIdHexLen: Option<int>,
    now: int
  )

  datatype Result =
    | Misconfigured
    | Rejected(check: string, perDisclosure: seq<Disclose.Verdict>)
    | Passed(perDisclosure: seq<Disclose.Verdict>)

  // ------------------------------------------------------------ single-use store

  class InMemoryConsumptionStore {
    var seen: set<string>

    constructor ()
      ensures seen == {}
    {
      seen := {};
    }

    /** Atomic test-and-set. */
    method ConsumeIfAbsent(key: string) returns (inserted: bool)
      modifies this
      ensures inserted <==> key !in old(seen)
      ensures seen == old(seen) + {key}
    {
      if key in seen {
        return false;
      }
      seen := seen + {key};
      inserted := true;
    }
  }

  function ConsumptionKey(verifierId: string, scope: string, nonce: string): string {
    verifierId + [UNIT_SEPARATOR] + Lower(scope) + [UNIT_SEPARATOR] + nonce
  }

  // ---------------------------------------------------------------- verification

  function MinHexLen(o: Options): (n: int)
    ensures n >= MIN_RECEIPT_ID_HEX_LEN
    ensures o.minReceiptIdHexLen.Some? ==> n >= o.minReceiptIdHexLen.value
  {
    match o.minReceiptIdHexLen
    case Some(n) => if n > MIN_RECEIPT_ID_HEX_LEN then n else MIN_RECEIPT_ID_HEX_LEN
    case None => MIN_RECEIPT_ID_HEX_LEN
  }

  predicate NonEmptyHex(s: string) {
    |s| > 0 && IsHex(s)
  }

  /** The presenter committed to this root: the signature is over the lower-cased root text. */
  predicate RootBound(c: Crypto, b: EvidenceBundle) {
    match (HexToBytes(b.rootSig), HexToBytes(Lower(b.presentationPubKey)))
    case (Some(sig), Some(key)) => c.verify(DISPUTE_BUNDLE_SEP, sig, c.utf8(Lower(b.signedRoot)), key)
    case _ => false
  }

  predicate SharedChallenge(disclosures: seq<Disclose.DisclosedClaim>) {
    forall i :: 0 <= i < |disclosures| ==> disclosures[i].challenge == disclosures[0].challenge
  }

  method FirstChallengeDivergence(disclosures: seq<Disclose.DisclosedClaim>) returns (at: Option<nat>)
    requires |disclosures| > 0
    ensures at.None? <==> SharedChallenge(disclosures)
    ensures at.Some? ==> at.value < |disclosures| && disclosures[at.value].challenge != disclosures[0].challenge
    ensures at.Some? ==> SharedChallenge(disclosures[..at.value])
  {
    var first := disclosures[0].challenge;
    for i := 1 to |disclosures|
      invariant forall j :: 0 <= j < i ==> disclosures[j].challenge == first
    {
      var ch := disclosures[i].challenge;
      if ch.verifierId != first.verifierId || ch.consentReceiptId != first.consentReceiptId
        || ch.nonce != first.nonce || ch.expiry != first.expiry {
        return Some(i);
      }
    }
    at := None;
  }

  function ShapeCheck(c: Crypto, b: EvidenceBundle): string {
    if |b.disclosures| == 0 then "empty"
    else if !NonEmptyHex(Lower(b.presentationPubKey)) then "presenter"
    else if !NonEmptyHex(b.signedRoot) then "root"
    else if !RootBound(c, b) then "root-binding"
    else ""
  }

  function ChallengeCheck(challenge: Disclose.RevealChallenge, o: Options): string {
    var scope := challenge.consentReceiptId;
    if !NonEmptyHex(scope) then "scope-form"
    else if |scope| < MinHexLen(o) then "scope-short"
    else if |scope| % 2 != 0 then "scope-odd"
    else if challenge.verifierId != o.expectedVerifierId then "audience"
    else if challenge.nonce != o.expectedNonce then "nonce"
    else ""
  }

  /** The checks before any disclosure is examined, in order; "" when all hold. */
  function BundleCheck(c: Crypto, b: EvidenceBundle, o: Options): string {
    if ShapeCheck(c, b) != "" then ShapeCheck(c, b)
    else if !SharedChallenge(b.disclosures) then "mixed-challenge"
    else ChallengeCheck(b.disclosures[0].challenge, o)
  }

  /** The bridge options are forced: the grantor expected is the presenter, consent signatures are checked. */
  function Bridge(b: EvidenceBundle, o: Options): Consent.BridgeOptions {
    var presenter := Lower(b.presentationPubKey);
    Consent.BridgeOptions(b.signedRoot, presenter, o.expectedVerifierId, o.expectedNonce, presenter, b.consentLedger,
                          o.now, true)
  }

  predicate Configured(o: Options) {
    |o.expectedVerifierId| > 0 && |o.expectedNonce| > 0
  }

  /** The verdict on each disclosure, by position. */
  function Verdicts(c: Crypto, b: EvidenceBundle, o: Options): nat -> Disclose.Verdict {
    (i: nat) =>
      if i < |b.disclosures| then Consent.VerifyWithConsent(c, b.disclosures[i], Bridge(b, o)) else Disclose.Throws
  }

  predicate AllPass(n: nat, verdicts: nat -> Disclose.Verdict) {
    forall i: nat :: i < n ==> verdicts(i) == Disclose.Pass
  }

  /** Everything but the single-use test holds. */
  predicate Convincing(c: Crypto, b: EvidenceBundle, o: Options) {
    Configured(o) && BundleCheck(c, b, o) == "" && AllPass(|b.disclosures|, Verdicts(c, b, o))
  }

  function KeyOf(b: EvidenceBundle, o: Options): string
    requires |b.disclosures| > 0
  {
    var challenge := b.disclosures[0].challenge;
    ConsumptionKey(o.expectedVerifierId, challenge.consentReceiptId, challenge.nonce)
  }

  /** Verify one disclosure after the other, stopping at the first that does not pass. */
  method CheckDisclosures(n: nat, verdicts: nat -> Disclose.Verdict) returns (perDisclosure: seq<Disclose.Verdict>)
    requires n > 0
    ensures 0 < |perDisclosure| <= n
    ensures forall i :: 0 <= i < |perDisclosure| ==> perDisclosure[i] == verdicts(i)
    ensures forall i :: 0 <= i < |perDisclosure| - 1 ==> perDisclosure[i] == Disclose.Pass
    ensures perDisclosure[|perDisclosure| - 1] == Disclose.Pass <==> AllPass(n, verdicts)
    ensures AllPass(n, verdicts) ==> |perDisclosure| == n
  {
    perDisclosure := [];
    for i := 0 to n
      invariant |perDisclosure| == i
      invariant forall j :: 0 <= j < i ==> perDisclosure[j] == verdicts(j) == Disclose.Pass
    {
      var verdict := verdicts(i);
      perDisclosure := perDisclosure + [verdict];
      if verdict != Disclose.Pass {
        return;
      }
    }
  }

  /** A pass needs a convincing bundle and a fresh challenge; any other outcome leaves the store as it was. */
  method VerifyDisputeBundle(c: Crypto, b: EvidenceBundle, o: Options, store: InMemoryConsumptionStore)
    returns (result: Result)
    modifies store
    ensures result == Misconfigured <==> !Configured(o)
    ensures result.Passed? <==> Convincing(c, b, o) && KeyOf(b, o) !in old(store.seen)
    ensures store.seen == if result.Passed? then old(store.seen) + {KeyOf(b, o)} else old(store.seen)
    ensures result.Passed? ==>
      && |b.disclosures| > 0 && |result.perDisclosure| == |b.disclosures|
      && store.seen == old(store.seen) + {o.expectedVerifierId + ([UNIT_SEPARATOR]
           + (Lower(b.disclosures[0].challenge.consentReceiptId) + ([UNIT_SEPARATOR] + o.expectedNonce)))}
    ensures result.Rejected? && BundleCheck(c, b, o) != "" ==> result == Rejected(BundleCheck(c, b, o), [])
    ensures result.Rejected? && BundleCheck(c, b, o) == "" ==>
      (result.check == "replay" <==> AllPass(|b.disclosures|, Verdicts(c, b, o)) && KeyOf(b, o) in old(store.seen))
    ensures var w := OneCall(c, World(old(store.seen), map[], []), 0, b, o);
      store.seen == w.seen && (result.Passed? <==> |w.passes| == 1)
  {
    OneCallMeans(c, World(store.seen, map[], []), 0, b, o);
    if |o.expectedVerifierId| == 0 || |o.expectedNonce| == 0 {
      return Misconfigured;
    }
    var shape := ShapeCheck(c, b);
    if shape != "" {
      return Rejected(shape, []);
    }
    var mixed := FirstChallengeDivergence(b.disclosures);
    if mixed.Some? {
      return Rejected("mixed-challenge", []);
    }
    var challenge := b.disclosures[0].challenge;
    var check := ChallengeCheck(challenge, o);
    if check != "" {
      return Rejected(check, []);
    }
    var challengeKey := ConsumptionKey(o.expectedVerifierId, challenge.consentReceiptId, challenge.nonce);
    var perDisclosure := CheckDisclosures(|b.disclosures|, Verdicts(c, b, o));
    if perDisclosure[|perDisclosure| - 1] != Disclose.Pass {
      return Rejected("disclosure", perDisclosure);
    }
    var inserted := store.ConsumeIfAbsent(challengeKey);
    if !inserted {
      return Rejected("replay", perDisclosure);
    }
    KeyAfterId(o.expectedVerifierId, challenge.consentReceiptId, challenge.nonce);
    result := Passed(perDisclosure);
  }

  // ------------------------------------------------------- what a pass proves

  /** A claim is covered: an authentic, live grant by `presenter` for `audience`, in the ledger, lists it. */
  ghost predicate CoveredBy(c: Crypto, ledger: seq<Consent.ConsentRecord>, presenter: string, audience: string,
                            now: int, d: Disclose.DisclosedClaim, grant: Consent.ConsentRecord)
  {
    && grant in ledger && Consent.Authentic(c, grant) && grant.action == "grant"
    && grant.consentReceiptId == d.challenge.consentReceiptId
    && Lower(grant.grantor) == presenter && grant.audience == audience && now < grant.expiresAt
    && Disclose.ComputeCommitment(c, d.salt, d.claim).Some?
    && Lower(Disclose.ComputeCommitment(c, d.salt, d.claim).value) in grant.commitments
    && Consent.IsLastWord(Consent.Scoped(c, ledger, d.challenge.consentReceiptId, true), grant)
  }

  /** The options under which the disclosure layer re-checks disclosure i. */
  function DiscloseOptions(b: EvidenceBundle, o: Options, root: string, i: nat): Disclose.VerifyDisclosedOptions
    requires i < |b.disclosures|
  {
    Disclose.VerifyDisclosedOptions(root, Lower(b.presentationPubKey), o.expectedVerifierId, o.expectedNonce,
                                    Some(b.disclosures[i].challenge.consentReceiptId), false, o.now)
  }

  lemma ConvincingDisclosure(c: Crypto, b: EvidenceBundle, o: Options, i: nat) returns (grant: Consent.ConsentRecord)
    requires Convincing(c, b, o) && i < |b.disclosures|
    ensures CoveredBy(c, b.consentLedger, Lower(b.presentationPubKey), o.expectedVerifierId, o.now, b.disclosures[i],
      grant)
    ensures Disclose.VerifyDisclosedClaim(c, b.disclosures[i], DiscloseOptions(b, o, b.signedRoot, i)) == Disclose.Pass
  {
    var d := b.disclosures[i];
    var scope := d.challenge.consentReceiptId;
    assert Verdicts(c, b, o)(i) == Disclose.Pass;
    var commitment := Disclose.ComputeCommitment(c, d.salt, d.claim).value;
    grant := Consent.Covering(c, b.consentLedger, scope, o.expectedVerifierId, commitment, o.now, true).value;
    Consent.GrantedMeansLastWordIsALiveGrant(c, b.consentLedger, scope, o.now, true, grant);
    LowerIsIdempotent(b.presentationPubKey);
    var records := Consent.Scoped(c, b.consentLedger, scope, true);
    var first, k := Consent.FoldFindsLastWord(records);
    assert records[k] in records;
    Consent.ScopedRecordsAreCounted(c, b.consentLedger, scope, true, grant);
  }

  /** The spelling of the root does not matter to the membership check. */
  lemma RootCaseDoesNotMatter(c: Crypto, b: EvidenceBundle, o: Options, i: nat)
    requires i < |b.disclosures|
    requires Disclose.VerifyDisclosedClaim(c, b.disclosures[i], DiscloseOptions(b, o, b.signedRoot, i)) == Disclose.Pass
    ensures Disclose.VerifyDisclosedClaim(c, b.disclosures[i], DiscloseOptions(b, o, Lower(b.signedRoot), i)) ==
      Disclose.Pass
  {
    DecodeIgnoresCase(b.signedRoot);
    assert Merkle.Decode32(Lower(b.signedRoot)) == Merkle.Decode32(b.signedRoot);
  }

  /** Every disclosure is signed by the presenter, over the one challenge and the commitment it opens to. */
  lemma PassProvesReveals(c: Crypto, b: EvidenceBundle, o: Options, i: nat) returns (preimage: Bytes)
    requires Convincing(c, b, o) && i < |b.disclosures|
    ensures Disclose.OpensTo(c, b.disclosures[i], preimage)
    ensures Disclose.ReachesRoot(c, c.hash(preimage), b.disclosures[i].merklePath, b.signedRoot)
    ensures Disclose.HolderSigned(c, b.disclosures[i], Lower(b.presentationPubKey), c.hash(preimage))
    ensures b.disclosures[i].challenge.verifierId == o.expectedVerifierId
    ensures b.disclosures[i].challenge.nonce == o.expectedNonce && o.now < b.disclosures[i].challenge.expiry
  {
    var grant := ConvincingDisclosure(c, b, o, i);
    Disclose.PassesExactlyWhen(c, b.disclosures[i], DiscloseOptions(b, o, b.signedRoot, i));
    preimage :|
      && Disclose.OpensTo(c, b.disclosures[i], preimage)
      && Disclose.ReachesRoot(c, c.hash(preimage), b.disclosures[i].merklePath, b.signedRoot)
      && Disclose.HolderSigned(c, b.disclosures[i], Lower(b.presentationPubKey), c.hash(preimage));
  }

  /**
   * What it takes, spelled out: a resolver with an id and a nonce of its own; disclosures under one challenge that
   * names both, in an unguessable scope; the presenter's signature on the lower-cased root; and every disclosure
   * passing the consent bridge with the presenter as the only possible grantor and consent signatures checked.
   */
  lemma ConvincingExactlyWhen(c: Crypto, b: EvidenceBundle, o: Options)
    ensures Convincing(c, b, o) <==>
      && o.expectedVerifierId != "" && o.expectedNonce != "" && b.disclosures != []
      && PresenterSignedRoot(c, b)
      && (forall i :: 0 <= i < |b.disclosures| ==> b.disclosures[i].challenge == b.disclosures[0].challenge)
      && b.disclosures[0].challenge.verifierId == o.expectedVerifierId
      && b.disclosures[0].challenge.nonce == o.expectedNonce
      && IsUnguessable(b.disclosures[0].challenge.consentReceiptId, o)
      && forall i :: 0 <= i < |b.disclosures| ==>
          Consent.VerifyWithConsent(c, b.disclosures[i], Consent.BridgeOptions(
            b.signedRoot, Lower(b.presentationPubKey), o.expectedVerifierId, o.expectedNonce,
            Lower(b.presentationPubKey), b.consentLedger, o.now, true)) == Disclose.Pass
  {
    ShapeSpelled(c, b);
    if b.disclosures != [] {
      ChallengeSpelled(b.disclosures[0].challenge, o);
    }
    var verdicts := Verdicts(c, b, o);
    assert forall i :: 0 <= i < |b.disclosures| ==>
      verdicts(i) == Consent.VerifyWithConsent(c, b.disclosures[i], Bridge(b, o));
  }

  predicate PresenterSignedRoot(c: Crypto, b: EvidenceBundle) {
    var presenter, root := Lower(b.presentationPubKey), Lower(b.signedRoot);
    var key, sig := HexToBytes(presenter), HexToBytes(b.rootSig);
    && presenter != "" && (forall i :: 0 <= i < |presenter| ==> IsHexDigit(presenter[i]))
    && root != "" && (forall i :: 0 <= i < |b.signedRoot| ==> IsHexDigit(b.signedRoot[i]))
    && key.Some? && sig.Some? && c.verify("dacs-x-dispute-bundle:v1:", sig.value, c.utf8(root), key.value)
  }

  /** Hex digits for whole bytes, at least 32 of them and at least as many as the resolver asks for. */
  predicate IsUnguessable(scope: string, o: Options) {
    && (forall i :: 0 <= i < |scope| ==> IsHexDigit(scope[i])) && |scope| % 2 == 0
    && |scope| >= 32 && (o.minReceiptIdHexLen.Some? ==> |scope| >= o.minReceiptIdHexLen.value)
  }

  lemma ShapeSpelled(c: Crypto, b: EvidenceBundle)
    ensures ShapeCheck(c, b) == "" <==> b.disclosures != [] && PresenterSignedRoot(c, b)
  {
  }

  lemma ChallengeSpelled(challenge: Disclose.RevealChallenge, o: Options)
    ensures ChallengeCheck(challenge, o) == "" <==>
      && challenge.verifierId == o.expectedVerifierId && challenge.nonce == o.expectedNonce
      && IsUnguessable(challenge.consentReceiptId, o)
  {
  }

  /** Before any disclosure is examined the first thing wrong with the bundle is named. */
  lemma BundleFailureIsNamed(c: Crypto, b: EvidenceBundle, o: Options)
    ensures
      var presenter := Lower(b.presentationPubKey);
      var scope := if b.disclosures == [] then "" else b.disclosures[0].challenge.consentReceiptId;
      BundleCheck(c, b, o) ==
        if b.disclosures == [] then "empty"
        else if presenter == "" || (exists i :: 0 <= i < |presenter| && !IsHexDigit(presenter[i])) then "presenter"
        else if b.signedRoot == "" || (exists i :: 0 <= i < |b.signedRoot| && !IsHexDigit(b.signedRoot[i])) then "root"
        else if !PresenterSignedRoot(c, b) then "root-binding"
        else if exists i :: 0 <= i < |b.disclosures| && b.disclosures[i].challenge != b.disclosures[0].challenge
        then "mixed-challenge"
        else if scope == "" || (exists i :: 0 <= i < |scope| && !IsHexDigit(scope[i])) then "scope-form"
        else if |scope| < 32 || (o.minReceiptIdHexLen.Some? && |scope| < o.minReceiptIdHexLen.value) then "scope-short"
        else if |scope| % 2 != 0 then "scope-odd"
        else if b.disclosures[0].challenge.verifierId != o.expectedVerifierId then "audience"
        else if b.disclosures[0].challenge.nonce != o.expectedNonce then "nonce"
        else ""
  {
  }

  /**
   * A pass shows one presenter behind everything: the presenter signed the root, and every disclosed claim is
   * covered by that presenter's live grant for this resolver and was attested under the root (or a collision
   * among the hashed preimages is exhibited).
   */
  lemma PassProvesEvidence(c: Crypto, b: EvidenceBundle, o: Options, records: seq<Disclose.ClaimCommitment>, i: nat)
    returns (grant: Consent.ConsentRecord)
    requires Convincing(c, b, o) && i < |b.disclosures|
    requires Disclose.Attested(c, records) && Merkle.HasRoot(Disclose.CommitmentsOf(records))
    requires Lower(b.signedRoot) == Merkle.RootOf(c.hash, Disclose.CommitmentsOf(records))
    ensures RootBound(c, b)
    ensures CoveredBy(c, b.consentLedger, Lower(b.presentationPubKey), o.expectedVerifierId, o.now, b.disclosures[i],
      grant)
    ensures var d := b.disclosures[i];
      Disclose.WasAttested(c, records, d.salt, d.claim)
      || Merkle.Collision(c.hash, Disclose.VerifierPreimages(c, d), Disclose.AttesterPreimages(c, records))
  {
    grant := ConvincingDisclosure(c, b, o, i);
    RootCaseDoesNotMatter(c, b, o, i);
    Disclose.AcceptedClaimWasAttested(c, records, b.disclosures[i], DiscloseOptions(b, o, Lower(b.signedRoot), i));
  }

  // ------------------------------------------------------------------ single use

  /** For one verifier id, the key names the scope (up to case) and the nonce: a hex scope holds no separator. */
  lemma KeyNamesChallenge(verifierId: string, scope1: string, nonce1: string, scope2: string, nonce2: string)
    requires IsHex(scope1) && IsHex(scope2)
    requires ConsumptionKey(verifierId, scope1, nonce1) == ConsumptionKey(verifierId, scope2, nonce2)
    ensures Lower(scope1) == Lower(scope2) && nonce1 == nonce2
  {
    var s1, s2 := Lower(scope1), Lower(scope2);
    LowerHexHasNoSeparator(scope1);
    LowerHexHasNoSeparator(scope2);
    var n := |verifierId| + 1;
    var tail1, tail2 := s1 + ([UNIT_SEPARATOR] + nonce1), s2 + ([UNIT_SEPARATOR] + nonce2);
    assert tail1 == ConsumptionKey(verifierId, scope1, nonce1)[n..];
    assert tail2 == ConsumptionKey(verifierId, scope2, nonce2)[n..];
    SplitAtFirst(s1, nonce1, s2, nonce2, UNIT_SEPARATOR);
  }

  lemma LowerHexHasNoSeparator(s: string)
    requires IsHex(s)
    ensures IsHex(Lower(s)) && UNIT_SEPARATOR !in Lower(s)
  {
    LowerKeepsHex(s);
  }

  /** Verifier ids without a separator never share a key either. */
  lemma KeyNamesVerifier(v1: string, scope1: string, nonce1: string, v2: string, scope2: string, nonce2: string)
    requires UNIT_SEPARATOR !in v1 && UNIT_SEPARATOR !in v2
    requires ConsumptionKey(v1, scope1, nonce1) == ConsumptionKey(v2, scope2, nonce2)
    ensures v1 == v2
  {
    var rest1, rest2 := Lower(scope1) + [UNIT_SEPARATOR] + nonce1, Lower(scope2) + [UNIT_SEPARATOR] + nonce2;
    assert ConsumptionKey(v1, scope1, nonce1) == v1 + ([UNIT_SEPARATOR] + rest1);
    assert ConsumptionKey(v2, scope2, nonce2) == v2 + ([UNIT_SEPARATOR] + rest2);
    SplitAtFirst(v1, rest1, v2, rest2, UNIT_SEPARATOR);
  }

  /** The scopes a resolver with a floor of `minLength` digits accepts. */
  predicate AcceptedScope(scope: string, minLength: int) {
    NonEmptyHex(scope) && |scope| >= minLength && |scope| % 2 == 0
  }

  /** Two resolvers, each with an id and its own floor, accept challenges that share a consumption key. */
  ghost predicate CanShareAKey(v1: string, min1: int, v2: string, min2: int) {
    v1 != "" && v2 != "" && exists scope1, nonce1, scope2, nonce2 ::
      && AcceptedScope(scope1, min1) && AcceptedScope(scope2, min2) && |nonce1| > 0 && |nonce2| > 0
      && ConsumptionKey(v1, scope1, nonce1) == ConsumptionKey(v2, scope2, nonce2)
  }

  /** The part of a text before its first separator, or all of it. */
  function FirstPart(s: string): string {
    s[..IndexOf(s, UNIT_SEPARATOR)]
  }

  /** `longer` is `v`, a separator, and a part that is a lower-case scope of the accepted form. */
  predicate ExtendsByScope(v: string, longer: string, minLength: int) {
    && 0 < |v| < |longer| && longer[..|v|] == v && longer[|v|] == UNIT_SEPARATOR
    && AcceptedScope(FirstPart(longer[|v| + 1..]), minLength)
    && Lower(FirstPart(longer[|v| + 1..])) == FirstPart(longer[|v| + 1..])
  }

  lemma KeyAfterId(v: string, scope: string, nonce: string)
    ensures var key := ConsumptionKey(v, scope, nonce);
      && key == v + ([UNIT_SEPARATOR] + (Lower(scope) + ([UNIT_SEPARATOR] + nonce)))
      && |key| > |v| && key[..|v|] == v && key[|v|] == UNIT_SEPARATOR
      && key[|v| + 1..] == Lower(scope) + ([UNIT_SEPARATOR] + nonce)
  {
  }

  /** A text followed by a separator and more, cut at its first separator. */
  lemma CutAtFirst(s: string, more: string) returns (rest: string)
    ensures UNIT_SEPARATOR !in FirstPart(s) && |rest| >= |more|
    ensures s + ([UNIT_SEPARATOR] + more) == FirstPart(s) + ([UNIT_SEPARATOR] + rest)
  {
    var i := IndexOf(s, UNIT_SEPARATOR);
    rest := if i == |s| then more else s[i + 1..] + ([UNIT_SEPARATOR] + more);
    if i < |s| {
      assert s == s[..i] + ([UNIT_SEPARATOR] + s[i + 1..]);
    }
  }

  /** Reading on from a separator-free part to the first separator gives that part. */
  lemma FirstPartOf(s: string, more: string, part: string, rest: string)
    requires UNIT_SEPARATOR !in part && s + ([UNIT_SEPARATOR] + more) == part + ([UNIT_SEPARATOR] + rest)
    ensures FirstPart(s) == part
  {
    var tail := CutAtFirst(s, more);
    SplitAtFirst(FirstPart(s), tail, part, rest, UNIT_SEPARATOR);
  }

  lemma LongerIdExtends(v1: string, rest1: string, v2: string, rest2: string)
    requires |v1| < |v2| && v1 + ([UNIT_SEPARATOR] + rest1) == v2 + ([UNIT_SEPARATOR] + rest2)
    ensures v2[..|v1|] == v1 && v2[|v1|] == UNIT_SEPARATOR
    ensures v2[|v1| + 1..] + ([UNIT_SEPARATOR] + rest2) == rest1
  {
    var key := v1 + ([UNIT_SEPARATOR] + rest1);
    assert v2 == key[..|v2|] && v1 == key[..|v1|] && key[|v1|] == UNIT_SEPARATOR;
    assert key[|v1| + 1..] == rest1;
  }

  lemma SharedKeyExtends(v1: string, scope1: string, nonce1: string, v2: string, scope2: string, nonce2: string,
                         min1: int)
    requires 0 < |v1| < |v2| && AcceptedScope(scope1, min1)
    requires ConsumptionKey(v1, scope1, nonce1) == ConsumptionKey(v2, scope2, nonce2)
    ensures ExtendsByScope(v1, v2, min1)
  {
    KeyAfterId(v1, scope1, nonce1);
    KeyAfterId(v2, scope2, nonce2);
    var more := Lower(scope2) + ([UNIT_SEPARATOR] + nonce2);
    LongerIdExtends(v1, Lower(scope1) + ([UNIT_SEPARATOR] + nonce1), v2, more);
    LowerHexHasNoSeparator(scope1);
    FirstPartOf(v2[|v1| + 1..], more, Lower(scope1), nonce1);
    LowerIsIdempotent(scope1);
  }

  lemma Regroup(v: string, s: string, more: string)
    ensures v + ([UNIT_SEPARATOR] + s) + ([UNIT_SEPARATOR] + more) ==
      v + ([UNIT_SEPARATOR] + (s + ([UNIT_SEPARATOR] + more)))
  {
  }

  lemma ExtensionSharesAKey(v1: string, v2: string, min1: int, scope2: string, nonce2: string)
    returns (scope1: string, nonce1: string)
    requires ExtendsByScope(v1, v2, min1)
    ensures AcceptedScope(scope1, min1) && |nonce1| > 0
    ensures ConsumptionKey(v1, scope1, nonce1) == ConsumptionKey(v2, scope2, nonce2)
  {
    var s, more := v2[|v1| + 1..], Lower(scope2) + ([UNIT_SEPARATOR] + nonce2);
    scope1 := FirstPart(s);
    nonce1 := CutAtFirst(s, more);
    assert v2 == v1 + ([UNIT_SEPARATOR] + s);
    KeyAfterId(v1, scope1, nonce1);
    KeyAfterId(v2, scope2, nonce2);
    Regroup(v1, s, more);
  }

  /** A scope every resolver accepts at its floor. */
  lemma SomeScopeIsAccepted(minLength: int) returns (scope: string)
    ensures AcceptedScope(scope, minLength)
  {
    var n: nat := if minLength > 0 then minLength else 1;
    scope := seq(2 * n, _ => '0');
  }

  /**
   * Exactly when two resolvers on one store can burn each other's challenge: the longer id is the shorter one, a
   * separator, and a lower-case accepted scope up to its end or its next separator.
   */
  lemma VerifiersShareAKeyExactlyWhen(v1: string, min1: int, v2: string, min2: int)
    ensures |v1| < |v2| ==> (CanShareAKey(v1, min1, v2, min2) <==> ExtendsByScope(v1, v2, min1))
    ensures |v1| == |v2| && v1 != v2 ==> !CanShareAKey(v1, min1, v2, min2)
  {
    if CanShareAKey(v1, min1, v2, min2) {
      var scope1, nonce1, scope2, nonce2 :|
        && AcceptedScope(scope1, min1) && AcceptedScope(scope2, min2) && |nonce1| > 0 && |nonce2| > 0
        && ConsumptionKey(v1, scope1, nonce1) == ConsumptionKey(v2, scope2, nonce2);
      KeyAfterId(v1, scope1, nonce1);
      KeyAfterId(v2, scope2, nonce2);
      if |v1| < |v2| {
        SharedKeyExtends(v1, scope1, nonce1, v2, scope2, nonce2, min1);
      }
    }
    if ExtendsByScope(v1, v2, min1) {
      var scope2 := SomeScopeIsAccepted(min2);
      var scope1, nonce1 := ExtensionSharesAKey(v1, v2, min1, scope2, "0");
      assert |"0"| > 0;
    }
  }

  /** Resolver workers sharing one store. A worker first examines a bundle, later performs the atomic consume. */
  datatype Event =
    | Begin(worker: nat, bundle: EvidenceBundle, options: Options)
    | Commit(worker: nat)

  datatype Acceptance = Acceptance(verifierId: string, scope: string, nonce: string)

  datatype World = World(
    seen: set<string>,
    pending: map<nat, (EvidenceBundle, Options)>,
    passes: seq<Acceptance>
  )

  function Step(c: Crypto, w: World, e: Event): World {
    match e
    case Begin(worker, b, o) =>
      if Convincing(c, b, o) then w.(pending := w.pending[worker := (b, o)])
      else w.(pending := w.pending - {worker})
    case Commit(worker) =>
      if worker !in w.pending || |w.pending[worker].0.disclosures| == 0 then w
      else
        var (b, o) := w.pending[worker];
        var key := KeyOf(b, o);
        var idle := w.(pending := w.pending - {worker});
        if key in w.seen then idle
        else
          var challenge := b.disclosures[0].challenge;
          idle.(seen := w.seen + {key},
                passes := w.passes + [Acceptance(o.expectedVerifierId, challenge.consentReceiptId, challenge.nonce)])
  }

  /** An uninterrupted call: examine, then consume. */
  function OneCall(c: Crypto, w: World, worker: nat, b: EvidenceBundle, o: Options): World {
    Step(c, Step(c, w, Begin(worker, b, o)), Commit(worker))
  }

  /** What an uninterrupted call leaves behind, whatever else is in progress: the source's method is this step pair. */
  lemma OneCallMeans(c: Crypto, w: World, worker: nat, b: EvidenceBundle, o: Options)
    ensures var w' := OneCall(c, w, worker, b, o);
      if Convincing(c, b, o) && KeyOf(b, o) !in w.seen
      then w'.seen == w.seen + {KeyOf(b, o)} && |w'.passes| == |w.passes| + 1
      else w'.seen == w.seen && w'.passes == w.passes
  {
    if Convincing(c, b, o) {
      ConvincingScopeIsHex(c, b, o);
    }
  }

  function Run(c: Crypto, w: World, events: seq<Event>): World {
    if |events| == 0 then w else Step(c, Run(c, w, events[..|events| - 1]), events[|events| - 1])
  }

  function AcceptanceKey(a: Acceptance): string {
    ConsumptionKey(a.verifierId, a.scope, a.nonce)
  }

  /** Every pass burnt its own key. */
  ghost predicate KeysAreBurntOnce(seen: set<string>, passes: seq<Acceptance>) {
    && (forall i :: 0 <= i < |passes| ==> AcceptanceKey(passes[i]) in seen && IsHex(passes[i].scope))
    && (forall i, j :: 0 <= i < j < |passes| ==> AcceptanceKey(passes[i]) != AcceptanceKey(passes[j]))
  }

  ghost predicate EachKeyOnce(c: Crypto, w: World) {
    && KeysAreBurntOnce(w.seen, w.passes)
    && (forall worker :: worker in w.pending ==> Convincing(c, w.pending[worker].0, w.pending[worker].1))
  }

  lemma FreshPassIsItsOwn(seen: set<string>, passes: seq<Acceptance>, a: Acceptance)
    requires KeysAreBurntOnce(seen, passes) && AcceptanceKey(a) !in seen && IsHex(a.scope)
    ensures KeysAreBurntOnce(seen + {AcceptanceKey(a)}, passes + [a])
  {
  }

  lemma ConvincingScopeIsHex(c: Crypto, b: EvidenceBundle, o: Options)
    requires Convincing(c, b, o)
    ensures |b.disclosures| > 0 && IsHex(b.disclosures[0].challenge.consentReceiptId)
  {
  }

  lemma CommitKeepsEachKeyOnce(c: Crypto, w: World, worker: nat)
    requires EachKeyOnce(c, w)
    ensures EachKeyOnce(c, Step(c, w, Commit(worker)))
  {
    if worker in w.pending {
      var (b, o) := w.pending[worker];
      ConvincingScopeIsHex(c, b, o);
      var challenge := b.disclosures[0].challenge;
      var acceptance := Acceptance(o.expectedVerifierId, challenge.consentReceiptId, challenge.nonce);
      if KeyOf(b, o) !in w.seen {
        FreshPassIsItsOwn(w.seen, w.passes, acceptance);
      }
    }
  }

  lemma StepKeepsEachKeyOnce(c: Crypto, w: World, e: Event)
    requires EachKeyOnce(c, w)
    ensures EachKeyOnce(c, Step(c, w, e))
  {
    match e
    case Begin(worker, b, o) =>
      var pending := Step(c, w, e).pending;
      assert forall k :: k in pending && k != worker ==> k in w.pending && pending[k] == w.pending[k];
    case Commit(worker) =>
      CommitKeepsEachKeyOnce(c, w, worker);
  }

  lemma {:induction false} RunKeepsEachKeyOnce(c: Crypto, w: World, events: seq<Event>)
    requires EachKeyOnce(c, w)
    ensures EachKeyOnce(c, Run(c, w, events))
  {
    if |events| > 0 {
      RunKeepsEachKeyOnce(c, w, events[..|events| - 1]);
      StepKeepsEachKeyOnce(c, Run(c, w, events[..|events| - 1]), events[|events| - 1]);
    }
  }

  /** Under any interleaving of workers, one verifier accepts a (scope, nonce) at most once. */
  lemma EachChallengePassesOnce(c: Crypto, burnt: set<string>, events: seq<Event>, i: nat, j: nat)
    requires var passes := Run(c, World(burnt, map[], []), events).passes;
      i < j < |passes| && passes[i].verifierId == passes[j].verifierId
    ensures var passes := Run(c, World(burnt, map[], []), events).passes;
      Lower(passes[i].scope) != Lower(passes[j].scope) || passes[i].nonce != passes[j].nonce
  {
    RunKeepsEachKeyOnce(c, World(burnt, map[], []), events);
  }
}
