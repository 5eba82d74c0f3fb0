/** Two-sided anchoring and the overall rollup of src/lib/verify-bundle-v1.ts. */
module TwoSided {
  import opened ByteStrings
  import opened Primitives
  import opened Bundles
  import BundleConsistency
  import opened VerifyBundle

  // ---------------------------------------------------------------- the substrate

  datatype AnchorData = Parsed(bundle: Bundle) | Unparseable
  datatype Fetched = Present(data: AnchorData) | Nothing | Failed

  /** `owner` is empty when the record names none. */
  datatype Resolved = Found(owner: string, data: AnchorData) | NotFound | ResolutionFailed

  /** Reads by address, and by (owner, program name). */
  datatype Substrate = Substrate(read: string -> Fetched, byName: (string, string) -> Resolved)

  function AnchorName(k: Context, jobId: string, role: string): string {
    "stor-" + BytesToHex(k.c.hash(k.c.utf8(jobId + "-bundle-" + role)))
  }

  function FirstWithRole(parties: seq<Party>, role: string): Option<Party> {
    if |parties| == 0 then None
    else if parties[0].role == role then Some(parties[0])
    else FirstWithRole(parties[1..], role)
  }

  /** /^obj:cci:([0-9a-f]{64})$/ */
  predicate IsRawKeyClaim(key: string) {
    |key| == 72 && key[..8] == "obj:cci:" && IsHex(key[8..]) && Lower(key[8..]) == key[8..]
  }

  /** The party's address: its raw key. */
  function PartyOwnerAddress(k: Context, b: Bundle, role: string): Option<string> {
    match FirstWithRole(b.parties, role)
    case None => None
    case Some(party) =>
      match k.id.claimKey(party.primaryClaim)
      case None => None
      case Some(key) => if IsRawKeyClaim(key) then Some("0x" + key[8..]) else None
  }

  function NormalisedAddress(a: string): string {
    Lower(if |a| >= 2 && a[0] == '0' && (a[1] == 'x' || a[1] == 'X') then a[2..] else a)
  }

  /** A failed read is never taken for absence; a record of another owner is. */
  function FetchPartyCopy(k: Context, sub: Substrate, b: Bundle, role: string): Fetched {
    var derived := AnchorName(k, b.jobId, role);
    var byAddress := sub.read(derived);
    if !byAddress.Nothing? then byAddress
    else
      match PartyOwnerAddress(k, b, role)
      case None => Nothing
      case Some(owner) =>
        match sub.byName(owner, derived)
        case NotFound => Nothing
        case ResolutionFailed => Failed
        case Found(recordOwner, data) =>
          if NormalisedAddress(recordOwner) == NormalisedAddress(owner) then Present(data) else Nothing
  }

  // --------------------------------------------------------------- the verification

  datatype ChainOutcome = Passes | Fails | Undecided

  function CopyOptions(requireSignatures: bool): Options {
    Options(requireSignatures, NoResolver)
  }

  /** What is asked of the copies: a decision and a digest each (None where the source throws), and agreement. */
  datatype Questions = Questions(
    decision: Bundle -> Option<Decision>,
    digest: Bundle -> Option<string>,
    agree: (Bundle, Bundle) -> bool)

  function DecisionOn(k: Context, requireSignatures: bool, b: Bundle): Option<Decision> {
    match VerifyBundleV1(k, CopyOptions(requireSignatures), b)
    case None => None
    case Some(v) => Some(v.decision)
  }

  predicate Accepts(k: Context, requireSignatures: bool, b: Bundle) {
    DecisionOn(k, requireSignatures, b) == Some(Accept)
  }

  /** Hex digest of the canonical bytes, by which the source decides byte equality. */
  function ContentDigest(k: Context, b: Bundle): Option<string> {
    match k.json.bundle(b)
    case None => None
    case Some(bytes) => Some(BytesToHex(k.c.hash(bytes)))
  }

  function QuestionsOf(k: Context, requireSignatures: bool): Questions {
    Questions(b => DecisionOn(k, requireSignatures, b), b => ContentDigest(k, b), BundleConsistency.V1Agree)
  }

  /** The lone copy: a rejected one leaves no valid bundle, which is undecided rather than a failure. */
  function VerifyLone(q: Questions, local: Bundle, role: string, copy: Bundle): Option<ChainOutcome> {
    if copy.jobId != local.jobId then Some(Fails)
    else if copy.anchoredByRole != role then Some(Fails)
    else if q.digest(local).None? || q.digest(copy).None? then None
    else if q.digest(local) != q.digest(copy) then Some(Fails)
    else
      match q.decision(copy)
      case None => None
      case Some(Accept) => Some(Passes)
      case Some(_) => Some(Undecided)
  }

  function VerifyPair(q: Questions, local: Bundle, buyer: Bundle, seller: Bundle): Option<ChainOutcome> {
    if buyer.jobId != local.jobId || seller.jobId != local.jobId then Some(Fails)
    else if buyer.anchoredByRole != "buyer" || seller.anchoredByRole != "seller" then Some(Fails)
    else if q.digest(local).None? || q.digest(buyer).None? || q.digest(seller).None? then None
    else if q.digest(local) != q.digest(buyer) && q.digest(local) != q.digest(seller) then Some(Fails)
    else if local.anchoredByRole != (if q.digest(local) == q.digest(buyer) then "buyer" else "seller") then Some(Fails)
    else if q.decision(buyer).None? || q.decision(seller).None? then None
    else if q.decision(buyer).value == Reject || q.decision(seller).value == Reject then Some(Fails)
    else if q.decision(buyer).value == Indeterminate || q.decision(seller).value == Indeterminate then Some(Undecided)
    else if q.agree(buyer, seller) then Some(Passes)
    else Some(Fails)
  }

  /** The case analysis over what the two reads returned. */
  function VerifyCopies(q: Questions, local: Bundle, buyer: Fetched, seller: Fetched): Option<ChainOutcome> {
    if buyer.Failed? || seller.Failed? then Some(Undecided)
    else if buyer.Nothing? && seller.Nothing? then Some(Undecided)
    else if (buyer.Present? && buyer.data.Unparseable?) || (seller.Present? && seller.data.Unparseable?)
      then Some(Undecided)
    else if seller.Nothing? then VerifyLone(q, local, "buyer", buyer.data.bundle)
    else if buyer.Nothing? then VerifyLone(q, local, "seller", seller.data.bundle)
    else VerifyPair(q, local, buyer.data.bundle, seller.data.bundle)
  }

  /** verifyV1TwoSided; None where it throws. */
  function VerifyTwoSided(k: Context, requireSignatures: bool, sub: Substrate, local: Bundle): Option<ChainOutcome> {
    VerifyCopies(QuestionsOf(k, requireSignatures), local,
      FetchPartyCopy(k, sub, local, "buyer"), FetchPartyCopy(k, sub, local, "seller"))
  }

  // ------------------------------------------------------------- what a pass means

  ghost predicate PresentCopy(k: Context, sub: Substrate, local: Bundle, role: string, copy: Bundle) {
    (role == "buyer" || role == "seller") && FetchPartyCopy(k, sub, local, role) == Present(Parsed(copy))
  }

  /** Two canonical texts with one digest. */
  ghost predicate Collide(k: Context, a: Bundle, b: Bundle) {
    && k.json.bundle(a).Some? && k.json.bundle(b).Some?
    && k.json.bundle(a) != k.json.bundle(b)
    && k.c.hash(k.json.bundle(a).value) == k.c.hash(k.json.bundle(b).value)
  }

  lemma SameDigestMeans(k: Context, a: Bundle, b: Bundle)
    requires ContentDigest(k, a).Some? && ContentDigest(k, a) == ContentDigest(k, b)
    ensures k.json.bundle(a) == k.json.bundle(b) || Collide(k, a, b)
  {
    HexRoundTrip(k.c.hash(k.json.bundle(a).value));
    HexRoundTrip(k.c.hash(k.json.bundle(b).value));
  }

  predicate IsCopy(fetched: Fetched, copy: Bundle) {
    fetched == Present(Parsed(copy))
  }

  /** What a pass of the case analysis establishes. */
  lemma PassFacts(q: Questions, local: Bundle, buyer: Fetched, seller: Fetched)
    requires VerifyCopies(q, local, buyer, seller) == Some(Passes)
    ensures !buyer.Failed? && !seller.Failed?
    ensures forall b :: IsCopy(buyer, b) ==>
      b.jobId == local.jobId && b.anchoredByRole == "buyer" && q.decision(b) == Some(Accept)
    ensures forall s :: IsCopy(seller, s) ==>
      s.jobId == local.jobId && s.anchoredByRole == "seller" && q.decision(s) == Some(Accept)
    ensures forall b, s :: IsCopy(buyer, b) && IsCopy(seller, s) ==> q.agree(b, s)
    ensures q.digest(local).Some?
    ensures
      || (buyer.Present? && IsCopy(buyer, buyer.data.bundle) && q.digest(local) == q.digest(buyer.data.bundle))
      || (seller.Present? && IsCopy(seller, seller.data.bundle) && q.digest(local) == q.digest(seller.data.bundle))
  {
  }

  /** The local bundle is canonically a present copy, or two texts with one digest are in hand. */
  lemma PassBindsLocal(k: Context, requireSignatures: bool, sub: Substrate, local: Bundle)
    returns (role: string, copy: Bundle)
    requires VerifyTwoSided(k, requireSignatures, sub, local) == Some(Passes)
    ensures PresentCopy(k, sub, local, role, copy) && copy.anchoredByRole == role
    ensures (k.json.bundle(local).Some? && k.json.bundle(local) == k.json.bundle(copy)) || Collide(k, local, copy)
  {
    var q := QuestionsOf(k, requireSignatures);
    var buyer, seller := FetchPartyCopy(k, sub, local, "buyer"), FetchPartyCopy(k, sub, local, "seller");
    PassFacts(q, local, buyer, seller);
    if buyer.Present? && q.digest(local) == q.digest(buyer.data.bundle) {
      role, copy := "buyer", buyer.data.bundle;
    } else {
      role, copy := "seller", seller.data.bundle;
    }
    SameDigestMeans(k, local, copy);
  }

  /** Every present copy declares the role of its address and is accepted in the caller's mode; two never diverge. */
  lemma PassVouchesForCopies(k: Context, requireSignatures: bool, sub: Substrate, local: Bundle)
    requires VerifyTwoSided(k, requireSignatures, sub, local) == Some(Passes)
    ensures forall role, copy :: PresentCopy(k, sub, local, role, copy) ==>
      copy.jobId == local.jobId && copy.anchoredByRole == role && Accepts(k, requireSignatures, copy)
    ensures forall b, s :: PresentCopy(k, sub, local, "buyer", b) && PresentCopy(k, sub, local, "seller", s) ==>
      BundleConsistency.V1Agree(b, s)
    ensures !FetchPartyCopy(k, sub, local, "buyer").Failed? && !FetchPartyCopy(k, sub, local, "seller").Failed?
  {
    var q := QuestionsOf(k, requireSignatures);
    var buyer, seller := FetchPartyCopy(k, sub, local, "buyer"), FetchPartyCopy(k, sub, local, "seller");
    PassFacts(q, local, buyer, seller);
    forall b, s | PresentCopy(k, sub, local, "buyer", b) && PresentCopy(k, sub, local, "seller", s)
      ensures BundleConsistency.V1Agree(b, s) {
      assert IsCopy(buyer, b) && IsCopy(seller, s);
    }
    forall role, copy | PresentCopy(k, sub, local, role, copy)
      ensures copy.jobId == local.jobId && copy.anchoredByRole == role
      ensures Accepts(k, requireSignatures, copy)
    {
      assert IsCopy(if role == "buyer" then buyer else seller, copy);
      assert q.decision(copy) == Some(Accept);
    }
  }

  /** With an injective canonicaliser and no collision, a passing local bundle is itself a signed, anchored copy. */
  lemma PassingLocalIsAccepted(k: Context, sub: Substrate, local: Bundle)
    requires BundleJcsIsInjective(k.json)
    requires VerifyTwoSided(k, true, sub, local) == Some(Passes)
    ensures
      || (exists copy :: Collide(k, local, copy))
      || (&& PresentCopy(k, sub, local, local.anchoredByRole, local)
          && Accepts(k, true, local)
          && (local.outcome in NON_ABORT ==> forall i :: 0 <= i < |local.parties| ==>
                SignedBy(k, CopyOptions(true), local, k.id.claimKey(local.parties[i].primaryClaim))))
  {
    var role, copy := PassBindsLocal(k, true, sub, local);
    PassVouchesForCopies(k, true, sub, local);
    if !Collide(k, local, copy) {
      assert local == copy;
      AcceptedBundleIsSigned(k, CopyOptions(true), local);
    }
  }

  /** A copy counts as present only at its derived address or in a record owned by the party's own key. */
  lemma PresentCopyIsTheParty(k: Context, sub: Substrate, b: Bundle, role: string)
    requires FetchPartyCopy(k, sub, b, role).Present?
    ensures
      || sub.read(AnchorName(k, b.jobId, role)) == FetchPartyCopy(k, sub, b, role)
      || exists party, key, owner ::
           && FirstWithRole(b.parties, role) == Some(party)
           && k.id.claimKey(party.primaryClaim) == Some(key) && IsRawKeyClaim(key)
           && sub.byName("0x" + key[8..], AnchorName(k, b.jobId, role)) ==
             Found(owner, FetchPartyCopy(k, sub, b, role).data)
           && NormalisedAddress(owner) == key[8..]
  {
    var derived := AnchorName(k, b.jobId, role);
    if sub.read(derived).Nothing? {
      var party := FirstWithRole(b.parties, role).value;
      var key := k.id.claimKey(party.primaryClaim).value;
      var owner := "0x" + key[8..];
      assert owner[2..] == key[8..];
      assert NormalisedAddress(owner) == key[8..];
      var recordOwner := sub.byName(owner, derived).owner;
      assert NormalisedAddress(recordOwner) == key[8..];
    }
  }

  // ------------------------------------------------------------- emit, then verify

  /** Everything the two sides need to close a session together. */
  ghost predicate Session(k: Context, unsigned: Bundle, signers: seq<Signer>) {
    && Works(k)
    && unsigned.version == BUNDLE_V1
    && ScopeHash(k.c.hash, k.json, unsigned).Some?
    && ListsRole(unsigned, "buyer") && ListsRole(unsigned, "seller")
    && WellFormedBody(k, unsigned)
    && AllPartiesSign(k, unsigned, signers)
  }

  function SideOf(unsigned: Bundle, role: string): Bundle {
    unsigned.(anchoredByRole := role)
  }

  lemma SideIsWellFormed(k: Context, unsigned: Bundle, role: string)
    requires WellFormedBody(k, unsigned) && unsigned.version == BUNDLE_V1
    requires role in ROLES && ListsRole(unsigned, role)
    ensures WellFormedBody(k, SideOf(unsigned, role))
  {
    var side := SideOf(unsigned, role);
    assert ListsRole(side, role) by {
      var i :| 0 <= i < |unsigned.parties| && unsigned.parties[i].role == role;
      assert side.parties[i].role == role;
    }
  }

  lemma SideHasTheRoster(k: Context, unsigned: Bundle, signers: seq<Signer>, role: string)
    requires AllPartiesSign(k, unsigned, signers)
    ensures AllPartiesSign(k, SideOf(unsigned, role), signers)
    ensures forall r :: ListsRole(SideOf(unsigned, role), r) <==> ListsRole(unsigned, r)
  {
    var side := SideOf(unsigned, role);
    forall r ensures ListsRole(side, r) <==> ListsRole(unsigned, r) {
      assert side.parties == unsigned.parties;
    }
    assert forall key :: IsListed(k, side, key) <==> IsListed(k, unsigned, key);
  }

  lemma SideIsASession(k: Context, unsigned: Bundle, signers: seq<Signer>, role: string)
    requires Session(k, unsigned, signers) && (role == "buyer" || role == "seller")
    ensures Session(k, SideOf(unsigned, role), signers)
    ensures ScopeHash(k.c.hash, k.json, SideOf(unsigned, role)) == ScopeHash(k.c.hash, k.json, unsigned)
  {
    CopiesShareScope(k.c.hash, k.json, unsigned, SideOf(unsigned, role));
    SideIsWellFormed(k, unsigned, role);
    SideHasTheRoster(k, unsigned, signers, role);
  }

  lemma SessionIsAccepted(k: Context, requireSignatures: bool, unsigned: Bundle, signers: seq<Signer>)
    requires Session(k, unsigned, signers)
    ensures Emit(k, unsigned, signers).Some? && Accepts(k, requireSignatures, Emit(k, unsigned, signers).value)
  {
    EmittedBundleIsAccepted(k, CopyOptions(requireSignatures), unsigned, signers);
  }

  lemma EmissionAddsSignatures(k: Context, unsigned: Bundle, signers: seq<Signer>)
    requires Emit(k, unsigned, signers).Some?
    ensures
      var copy := Emit(k, unsigned, signers).value;
      && copy == unsigned.(signatures := copy.signatures)
      && ScopeHash(k.c.hash, k.json, copy) == ScopeHash(k.c.hash, k.json, unsigned)
  {
    CopiesShareScope(k.c.hash, k.json, unsigned, Emit(k, unsigned, signers).value);
  }

  lemma EmittedSide(k: Context, requireSignatures: bool, unsigned: Bundle, signers: seq<Signer>, role: string)
    returns (copy: Bundle)
    requires Session(k, unsigned, signers) && (role == "buyer" || role == "seller")
    ensures Emit(k, SideOf(unsigned, role), signers) == Some(copy)
    ensures Accepts(k, requireSignatures, copy)
    ensures copy == SideOf(unsigned, role).(signatures := copy.signatures)
    ensures ScopeHash(k.c.hash, k.json, copy) == ScopeHash(k.c.hash, k.json, unsigned)
  {
    SideIsASession(k, unsigned, signers, role);
    SessionIsAccepted(k, requireSignatures, SideOf(unsigned, role), signers);
    copy := Emit(k, SideOf(unsigned, role), signers).value;
    EmissionAddsSignatures(k, SideOf(unsigned, role), signers);
  }

  lemma EmittedCopiesDoNotDiverge(b: Bundle, s: Bundle)
    requires b.outcome == s.outcome && b.phaseSummary == s.phaseSummary
    ensures BundleConsistency.V1Agree(b, s) <==> BundleConsistency.SelfConsistent(b)
  {
    BundleConsistency.V1AgreementIsAgreementOfAConsistentCopy(b, s);
  }

  /** Two accepted copies, the local bundle one of them. */
  lemma PairOfAcceptedCopies(q: Questions, local: Bundle, buyer: Bundle, seller: Bundle)
    requires local == buyer || (local == seller && q.digest(buyer) != q.digest(seller))
    requires q.digest(buyer).Some? && q.digest(seller).Some?
    requires buyer.jobId == seller.jobId && buyer.anchoredByRole == "buyer" && seller.anchoredByRole == "seller"
    requires q.decision(buyer) == Some(Accept) && q.decision(seller) == Some(Accept)
    ensures VerifyPair(q, local, buyer, seller) == Some(if q.agree(buyer, seller) then Passes else Fails)
  {
  }

  lemma CopiesHaveOwnDigests(k: Context, buyer: Bundle, seller: Bundle)
    requires BundleJcsIsInjective(k.json) && k.json.bundle(buyer).Some? && k.json.bundle(seller).Some?
    requires buyer.anchoredByRole == "buyer" && seller.anchoredByRole == "seller"
    ensures ContentDigest(k, buyer) != ContentDigest(k, seller) || Collide(k, buyer, seller)
  {
    assert "buyer"[0] != "seller"[0];
    if ContentDigest(k, buyer) == ContentDigest(k, seller) {
      SameDigestMeans(k, buyer, seller);
    }
  }

  lemma AnchoredPairVerifies(k: Context, q: Questions, local: Bundle, buyer: Bundle, seller: Bundle)
    requires BundleJcsIsInjective(k.json) && k.json.bundle(buyer).Some? && k.json.bundle(seller).Some?
    requires local == buyer || local == seller
    requires seller == buyer.(anchoredByRole := "seller", signatures := seller.signatures)
    requires buyer.anchoredByRole == "buyer"
    requires q.decision(buyer) == Some(Accept) && q.decision(seller) == Some(Accept)
    requires q.digest(buyer) == ContentDigest(k, buyer) && q.digest(seller) == ContentDigest(k, seller)
    requires q.agree(buyer, seller) <==> BundleConsistency.V1Agree(buyer, seller)
    requires !Collide(k, buyer, seller)
    ensures
      VerifyCopies(q, local, Present(Parsed(buyer)), Present(Parsed(seller))) == Some(Passes) <==>
      BundleConsistency.SelfConsistent(buyer)
  {
    EmittedCopiesDoNotDiverge(buyer, seller);
    CopiesHaveOwnDigests(k, buyer, seller);
    PairOfAcceptedCopies(q, local, buyer, seller);
  }

  /**
   * When every party signs, the buyer's and the seller's copies hash equal and are accepted in either mode, and
   * two-sided verification of either copy passes exactly when repeated phase indices read the same (always, when
   * they are distinct) — unless the two copies collide, which needs equal digests of different texts.
   */
  lemma EmittedCopiesVerify(
      k: Context, requireSignatures: bool, sub: Substrate, unsigned: Bundle, signers: seq<Signer>, local: Bundle)
    requires Session(k, unsigned, signers) && BundleJcsIsInjective(k.json)
    requires Emit(k, SideOf(unsigned, "buyer"), signers).Some? && Emit(k, SideOf(unsigned, "seller"), signers).Some?
    requires
      var buyer, seller :=
        Emit(k, SideOf(unsigned, "buyer"), signers).value, Emit(k, SideOf(unsigned, "seller"), signers).value;
      && k.json.bundle(buyer).Some? && k.json.bundle(seller).Some?
      && (local == buyer || local == seller)
      && FetchPartyCopy(k, sub, local, "buyer") == Present(Parsed(buyer))
      && FetchPartyCopy(k, sub, local, "seller") == Present(Parsed(seller))
    ensures
      var buyer, seller :=
        Emit(k, SideOf(unsigned, "buyer"), signers).value, Emit(k, SideOf(unsigned, "seller"), signers).value;
      && ScopeHash(k.c.hash, k.json, buyer) == ScopeHash(k.c.hash, k.json, seller)
      && Accepts(k, requireSignatures, buyer) && Accepts(k, requireSignatures, seller)
      && (!Collide(k, buyer, seller) ==>
            (VerifyTwoSided(k, requireSignatures, sub, local) == Some(Passes) <==>
              BundleConsistency.SelfConsistent(unsigned)))
  {
    var buyer := EmittedSide(k, requireSignatures, unsigned, signers, "buyer");
    var seller := EmittedSide(k, requireSignatures, unsigned, signers, "seller");
    ReadingsDecide(k, requireSignatures, sub, local, Present(Parsed(buyer)), Present(Parsed(seller)));
    SamePhasesSameConsistency(buyer, unsigned);
    if !Collide(k, buyer, seller) {
      AnchoredPairVerifies(k, QuestionsOf(k, requireSignatures), local, buyer, seller);
    }
  }

  lemma SamePhasesSameConsistency(a: Bundle, b: Bundle)
    requires a.phaseSummary == b.phaseSummary
    ensures BundleConsistency.SelfConsistent(a) <==> BundleConsistency.SelfConsistent(b)
  {
  }

  lemma LoneAcceptedCopy(q: Questions, copy: Bundle, role: string)
    requires q.digest(copy).Some? && q.decision(copy) == Some(Accept) && copy.anchoredByRole == role
    ensures VerifyLone(q, copy, role, copy) == Some(Passes)
  {
  }

  /** One side alone anchored: the fully signed copy still passes, without the condition on phase indices. */
  lemma LoneEmittedCopyVerifies(
      k: Context, requireSignatures: bool, sub: Substrate, unsigned: Bundle, signers: seq<Signer>, role: string,
      other: string)
    requires Session(k, unsigned, signers)
    requires (role == "buyer" && other == "seller") || (role == "seller" && other == "buyer")
    requires Emit(k, SideOf(unsigned, role), signers).Some?
    requires
      var copy := Emit(k, SideOf(unsigned, role), signers).value;
      && k.json.bundle(copy).Some?
      && FetchPartyCopy(k, sub, copy, role) == Present(Parsed(copy))
      && FetchPartyCopy(k, sub, copy, other) == Nothing
    ensures VerifyTwoSided(k, requireSignatures, sub, Emit(k, SideOf(unsigned, role), signers).value) == Some(Passes)
  {
    var copy := EmittedSide(k, requireSignatures, unsigned, signers, role);
    LoneCopyVerifies(k, requireSignatures, sub, copy, role, other);
  }

  /** Readings alone decide. */
  lemma ReadingsDecide(k: Context, requireSignatures: bool, sub: Substrate, local: Bundle, buyer: Fetched,
                       seller: Fetched)
    requires FetchPartyCopy(k, sub, local, "buyer") == buyer && FetchPartyCopy(k, sub, local, "seller") == seller
    ensures VerifyTwoSided(k, requireSignatures, sub, local) ==
            VerifyCopies(QuestionsOf(k, requireSignatures), local, buyer, seller)
  {
  }

  lemma LoneCopyVerifies(k: Context, requireSignatures: bool, sub: Substrate, copy: Bundle, role: string, other: string)
    requires (role == "buyer" && other == "seller") || (role == "seller" && other == "buyer")
    requires k.json.bundle(copy).Some? && Accepts(k, requireSignatures, copy) && copy.anchoredByRole == role
    requires FetchPartyCopy(k, sub, copy, role) == Present(Parsed(copy))
    requires FetchPartyCopy(k, sub, copy, other) == Nothing
    ensures VerifyTwoSided(k, requireSignatures, sub, copy) == Some(Passes)
  {
    LoneAcceptedCopy(QuestionsOf(k, requireSignatures), copy, role);
    if role == "buyer" {
      ReadingsDecide(k, requireSignatures, sub, copy, Present(Parsed(copy)), Nothing);
    } else {
      ReadingsDecide(k, requireSignatures, sub, copy, Nothing, Present(Parsed(copy)));
    }
  }

  // ---------------------------------------------------------------------- rollup

  function Rollup(outcomes: seq<ChainOutcome>): ChainOutcome {
    if Fails in outcomes then Fails else if Undecided in outcomes then Undecided else Passes
  }

  function OutcomeOf(d: Decision): ChainOutcome {
    match d case Accept => Passes case Reject => Fails case Indeterminate => Undecided
  }

  /**
   * The rollup of verifyBundleV1Full over its own verdict, the two-sided outcome (None: lookup skipped) and the
   * steps of the attestation walk.
   */
  function FullRollup(base: VerifyBundle.Verdict, twoSided: Option<ChainOutcome>,
                      steps: seq<ChainOutcome>): ChainOutcome {
    if !base.structurallyValid then Fails
    else
      match twoSided
      case None => Rollup([OutcomeOf(base.decision)] + steps)
      case Some(outcome) => Rollup([OutcomeOf(base.decision), outcome] + steps)
  }

  /** Nothing short of success everywhere rolls up to a pass. */
  lemma RollupPassesOnlyOnSuccess(base: VerifyBundle.Verdict, twoSided: Option<ChainOutcome>, steps: seq<ChainOutcome>)
    ensures FullRollup(base, twoSided, steps) == Passes <==>
      (&& base.structurallyValid
       && base.decision == Accept
       && (twoSided == None || twoSided == Some(Passes))
       && forall i :: 0 <= i < |steps| ==> steps[i] == Passes)
  {
    RollupOf([OutcomeOf(base.decision)], steps);
    if twoSided.Some? {
      var head := [OutcomeOf(base.decision), twoSided.value];
      RollupOf(head, steps);
      assert head[0] == OutcomeOf(base.decision) && head[1] == twoSided.value;
    }
  }

  /** Any failure rolls up to a failure. */
  lemma RollupFailsOnAnyFailure(base: VerifyBundle.Verdict, twoSided: Option<ChainOutcome>, steps: seq<ChainOutcome>)
    ensures FullRollup(base, twoSided, steps) == Fails <==>
      (|| !base.structurallyValid
       || base.decision == Reject
       || twoSided == Some(Fails)
       || exists i :: 0 <= i < |steps| && steps[i] == Fails)
  {
    assert Fails in [OutcomeOf(base.decision)] + steps <==> base.decision == Reject || Fails in steps;
    if twoSided.Some? {
      assert Fails in [OutcomeOf(base.decision), twoSided.value] + steps <==>
        base.decision == Reject || twoSided.value == Fails || Fails in steps;
    }
  }

  lemma RollupOf(head: seq<ChainOutcome>, steps: seq<ChainOutcome>)
    ensures Rollup(head + steps) == Passes <==>
      (forall i :: 0 <= i < |head| ==> head[i] == Passes) && (forall i :: 0 <= i < |steps| ==> steps[i] == Passes)
  {
    var all := head + steps;
    assert forall i :: 0 <= i < |head| ==> all[i] == head[i];
    assert forall i :: 0 <= i < |steps| ==> all[|head| + i] == steps[i];
  }

  // ------------------------------------------------------------- the rules, spelled out

  /** An address without "0x" or "0X", in lower case. */
  function Bare(a: string): string {
    Lower(if |a| >= 2 && a[0] == '0' && (a[1] == 'x' || a[1] == 'X') then a[2..] else a)
  }

  predicate IsRawKeyText(digits: string) {
    |digits| == 64 && forall n :: 0 <= n < 64 ==> '0' <= digits[n] <= '9' || 'a' <= digits[n] <= 'f'
  }

  /** `owner` is "0x" and the raw key of the first party in the role, whose claim is a cci object claim. */
  ghost predicate IsOwnerOf(k: Context, b: Bundle, role: string, owner: string) {
    exists i, digits: string ::
      && 0 <= i < |b.parties| && b.parties[i].role == role
      && (forall j :: 0 <= j < i ==> b.parties[j].role != role)
      && k.id.claimKey(b.parties[i].primaryClaim) == Some("obj:cci:" + digits)
      && IsRawKeyText(digits)
      && owner == "0x" + digits
  }

  lemma {:induction false} FirstPartySpelled(parties: seq<Party>, role: string) returns (i: nat)
    ensures FirstWithRole(parties, role).None? ==> forall j :: 0 <= j < |parties| ==> parties[j].role != role
    ensures FirstWithRole(parties, role).Some? ==>
      && i < |parties| && parties[i].role == role && FirstWithRole(parties, role) == Some(parties[i])
      && forall j :: 0 <= j < i ==> parties[j].role != role
  {
    i := 0;
    if |parties| > 0 && parties[0].role != role {
      var rest := FirstPartySpelled(parties[1..], role);
      forall j | 1 <= j < |parties| ensures parties[j] == parties[1..][j - 1] {}
      i := rest + 1;
    }
  }

  lemma RawKeySpelled(key: string)
    ensures IsRawKeyClaim(key) <==>
      exists digits :: IsRawKeyText(digits) && key == "obj:cci:" + digits
  {
    if IsRawKeyClaim(key) {
      assert key == "obj:cci:" + key[8..];
      forall n | 0 <= n < 64 ensures '0' <= key[8..][n] <= '9' || 'a' <= key[8..][n] <= 'f' {
        assert Lower(key[8..])[n] == key[8..][n];
      }
    }
    if digits :| IsRawKeyText(digits) && key == "obj:cci:" + digits {
      assert key[..8] == "obj:cci:" && key[8..] == digits;
      assert Lower(digits) == digits;
    }
  }

  lemma OwnerSpelled(k: Context, b: Bundle, role: string, owner: string)
    ensures PartyOwnerAddress(k, b, role) == Some(owner) <==> IsOwnerOf(k, b, role, owner)
  {
    var first := FirstPartySpelled(b.parties, role);
    if PartyOwnerAddress(k, b, role) == Some(owner) {
      var key := k.id.claimKey(b.parties[first].primaryClaim).value;
      RawKeySpelled(key);
      assert key == "obj:cci:" + key[8..] && owner == "0x" + key[8..];
    }
    if IsOwnerOf(k, b, role, owner) {
      var i, digits: string :|
        && 0 <= i < |b.parties| && b.parties[i].role == role
        && (forall j :: 0 <= j < i ==> b.parties[j].role != role)
        && k.id.claimKey(b.parties[i].primaryClaim) == Some("obj:cci:" + digits)
        && IsRawKeyText(digits)
        && owner == "0x" + digits;
      assert i == first;
      RawKeySpelled("obj:cci:" + digits);
      assert ("obj:cci:" + digits)[8..] == digits;
    }
  }

  /** The derived address of one side: the hash of its name. */
  function SideAddress(k: Context, jobId: string, role: string): string {
    "stor-" + BytesToHex(k.c.hash(k.c.utf8(jobId + "-bundle-" + role)))
  }

  /**
   * The copy of one side: what its derived address holds, or cannot be read to hold; where that is nothing, the record
   * of that name belonging to the party's own key, whose resolution may fail too.
   */
  lemma FetchSpelled(k: Context, sub: Substrate, b: Bundle, role: string)
    ensures
      var address := SideAddress(k, b.jobId, role);
      && (!sub.read(address).Nothing? ==> FetchPartyCopy(k, sub, b, role) == sub.read(address))
      && (sub.read(address).Nothing? && (forall owner :: !IsOwnerOf(k, b, role, owner)) ==>
            FetchPartyCopy(k, sub, b, role) == Nothing)
      && (forall owner :: sub.read(address).Nothing? && IsOwnerOf(k, b, role, owner) ==>
            FetchPartyCopy(k, sub, b, role) ==
              match sub.byName(owner, address)
              case NotFound => Nothing
              case ResolutionFailed => Failed
              case Found(holder, data) => if Bare(holder) == Bare(owner) then Present(data) else Nothing)
  {
    forall owner ensures PartyOwnerAddress(k, b, role) == Some(owner) <==> IsOwnerOf(k, b, role, owner) {
      OwnerSpelled(k, b, role, owner);
    }
  }

  /** The copy says what its address and the local bundle say. */
  predicate IsInPlace(q: Questions, local: Bundle, role: string, copy: Bundle) {
    copy.jobId == local.jobId && copy.anchoredByRole == role && q.digest(local).Some? && q.digest(copy).Some?
  }

  /** One present copy that is accepted and equals the local bundle. */
  predicate LonePasses(q: Questions, local: Bundle, role: string, copy: Bundle) {
    IsInPlace(q, local, role, copy) && q.digest(copy) == q.digest(local) && q.decision(copy) == Some(Accept)
  }

  /** Two present copies, accepted and agreeing, of which the local bundle equals the one of its own role. */
  predicate PairPasses(q: Questions, local: Bundle, buyer: Bundle, seller: Bundle) {
    && IsInPlace(q, local, "buyer", buyer) && IsInPlace(q, local, "seller", seller)
    && (if q.digest(local) == q.digest(buyer) then local.anchoredByRole == "buyer"
        else q.digest(local) == q.digest(seller) && local.anchoredByRole == "seller")
    && q.decision(buyer) == Some(Accept) && q.decision(seller) == Some(Accept)
    && q.agree(buyer, seller)
  }

  /** Exactly when two readings pass, and what makes them undecided before any copy is looked into. */
  lemma CopiesSpelled(q: Questions, local: Bundle, buyer: Fetched, seller: Fetched)
    ensures VerifyCopies(q, local, buyer, seller) == Some(Passes) <==>
      || (buyer.Present? && buyer.data.Parsed? && seller.Nothing? && LonePasses(q, local, "buyer", buyer.data.bundle))
      || (seller.Present? && seller.data.Parsed? && buyer.Nothing?
          && LonePasses(q, local, "seller", seller.data.bundle))
      || (buyer.Present? && buyer.data.Parsed? && seller.Present? && seller.data.Parsed?
          && PairPasses(q, local, buyer.data.bundle, seller.data.bundle))
    ensures (|| buyer.Failed? || seller.Failed? || (buyer.Nothing? && seller.Nothing?)
             || buyer == Present(Unparseable) || seller == Present(Unparseable)) ==>
        VerifyCopies(q, local, buyer, seller) == Some(Undecided)
  {
  }

  /** A copy out of place, or unlike the local bundle, fails the check. */
  lemma MisplacedCopyFails(q: Questions, local: Bundle, role: string, copy: Bundle, other: Fetched)
    requires role == "buyer" || role == "seller"
    requires other.Nothing? || (other.Present? && other.data.Parsed?)
    ensures copy.jobId != local.jobId || copy.anchoredByRole != role ==>
      (if role == "buyer" then VerifyCopies(q, local, Present(Parsed(copy)), other)
       else VerifyCopies(q, local, other, Present(Parsed(copy)))) == Some(Fails)
    ensures other.Nothing? && IsInPlace(q, local, role, copy) && q.digest(copy) != q.digest(local) ==>
      (if role == "buyer" then VerifyCopies(q, local, Present(Parsed(copy)), other)
       else VerifyCopies(q, local, other, Present(Parsed(copy)))) == Some(Fails)
    ensures (&& other.Nothing? && IsInPlace(q, local, role, copy) && q.digest(copy) == q.digest(local)
             && q.decision(copy).Some? && q.decision(copy) != Some(Accept)) ==>
      (if role == "buyer" then VerifyCopies(q, local, Present(Parsed(copy)), other)
       else VerifyCopies(q, local, other, Present(Parsed(copy)))) == Some(Undecided)
  {
  }

  /** Two copies in place: strangers to the local bundle or a mismatched role fail, then a rejected copy, then doubt. */
  lemma PairInPlaceSpelled(q: Questions, local: Bundle, buyer: Bundle, seller: Bundle)
    requires IsInPlace(q, local, "buyer", buyer) && IsInPlace(q, local, "seller", seller)
    ensures
      var v := VerifyCopies(q, local, Present(Parsed(buyer)), Present(Parsed(seller)));
      var belongs := if q.digest(local) == q.digest(buyer) then local.anchoredByRole == "buyer"
                     else q.digest(local) == q.digest(seller) && local.anchoredByRole == "seller";
      && (!belongs ==> v == Some(Fails))
      && (belongs && q.decision(buyer).Some? && q.decision(seller).Some? ==>
            && (q.decision(buyer) == Some(Reject) || q.decision(seller) == Some(Reject) ==> v == Some(Fails))
            && (q.decision(buyer) != Some(Reject) && q.decision(seller) != Some(Reject)
                && (q.decision(buyer) == Some(Indeterminate) || q.decision(seller) == Some(Indeterminate)) ==>
                  v == Some(Undecided))
            && (q.decision(buyer) == Some(Accept) && q.decision(seller) == Some(Accept) && !q.agree(buyer, seller) ==>
                  v == Some(Fails)))
  {
  }

  /** What is asked: the verdict without a resolver, the hex hash of the whole canonical bundle, and the walk. */
  lemma QuestionsSpelled(k: Context, requireSignatures: bool, a: Bundle, b: Bundle)
    ensures
      var q := QuestionsOf(k, requireSignatures);
      var verdict := VerifyBundleV1(k, Options(requireSignatures, _ => None), a);
      && (q.decision(a) == if verdict.Some? then Some(verdict.value.decision) else None)
      && (q.digest(a) ==
            if k.json.bundle(a).Some? then Some(BytesToHex(k.c.hash(k.json.bundle(a).value))) else None)
      && (q.agree(a, b) <==> BundleConsistency.V1Agree(a, b))
  {
    OptionsAreExtensional(k, requireSignatures, a);
  }

  lemma OptionsAreExtensional(k: Context, requireSignatures: bool, b: Bundle)
    ensures VerifyBundleV1(k, Options(requireSignatures, _ => None), b)
            == VerifyBundleV1(k, CopyOptions(requireSignatures), b)
  {
    var o, o' := Options(requireSignatures, _ => None), CopyOptions(requireSignatures);
    if ScopeHash(k.c.hash, k.json, b).Some? {
      var hash := ScopeHash(k.c.hash, k.json, b).value;
      assert Checks(k, o, b, hash) == Checks(k, o', b, hash);
    }
  }
}
