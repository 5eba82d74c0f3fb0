/** Deposit proofs and the checks every bridge verifier makes on them. */
module Deposits {
  import opened ByteStrings
  import opened Price

  datatype DepositProof = DepositProof(
    depositId: string,
    bridgeId: string,
    amount: PriceTerm,
    confirmed: bool,
    confirmedAt: Option<string>,
    confirmations: Option<int>,
    requiredConfirmations: Option<int>,
    depositor: Option<string>,
    depositWindowExpiry: Option<string>
  )

  datatype Verdict = Pass | Fail(check: string) | Indeterminate(check: string) | Throws

  datatype Options = Options(
    requiredQuorum: int,
    shardSetSize: Option<int>,
    authorizedShardSet: Option<seq<string>>,
    consumedDepositLedger: Option<seq<string>>
  )

  /** Date.parse */
  type Clock = string -> Option<int>

  /** A missing confirmedAt, or an empty one, is falsy. */
  predicate Confirmed(p: DepositProof) {
    p.confirmed && p.confirmedAt.Some? && p.confirmedAt.value != ""
  }

  predicate DeepEnough(p: DepositProof) {
    p.requiredConfirmations.Some? ==>
      p.confirmations.Some? && p.confirmations.value >= p.requiredConfirmations.value
  }

  /** The first failed deposit check, in order; "" when the proof is confirmed and binds to bridge and amount. */
  function DepositCheck(proof: Option<DepositProof>, bridgeId: string, amount: PriceTerm): string {
    if !IsPositiveAmount(amount) then "amount-not-positive"
    else if proof.None? then "no-deposit-proof"
    else if !Confirmed(proof.value) then "unconfirmed"
    else if !DeepEnough(proof.value) then "confirmations"
    else if proof.value.bridgeId != bridgeId then "bridge"
    else if !IsPositiveAmount(proof.value.amount) then "proof-amount-not-positive"
    else if !PriceEqual(proof.value.amount, amount) then "amount-mismatch"
    else ""
  }

  /** A bound deposit carries a positive amount equal, as a rational of the same asset, to the claimed one. */
  lemma BoundDepositMatchesAmount(proof: Option<DepositProof>, bridgeId: string, amount: PriceTerm)
    requires DepositCheck(proof, bridgeId, amount) == ""
    ensures proof.Some? && proof.value.amount.asset == amount.asset
    ensures CanonicalPrice(amount).Some? && CanonicalPrice(proof.value.amount).Some?
    ensures Amount(proof.value.amount) == Amount(amount) > 0.0
  {
    GuardsDecideSign(amount);
    PriceEqualExactlyWhen(proof.value.amount, amount);
  }

  // ------------------------------------------------------------- the checks, spelled out

  /** Both amounts readable, positive, of one asset, equal and written with equally many fraction digits. */
  predicate AmountsMatch(x: PriceTerm, y: PriceTerm) {
    && CanonicalPrice(x).Some? && CanonicalPrice(y).Some? && x.asset == y.asset
    && Amount(x) == Amount(y) && Amount(x) > 0.0 && Places(x) == Places(y)
  }

  /** A confirmed deposit, deep enough for what it asks, on this bridge and of this amount. */
  predicate BacksClaim(proof: DepositProof, bridgeId: string, amount: PriceTerm) {
    && proof.confirmed && proof.confirmedAt.Some? && proof.confirmedAt.value != ""
    && (proof.requiredConfirmations.Some? ==>
          proof.confirmations.Some? && proof.requiredConfirmations.value <= proof.confirmations.value)
    && proof.bridgeId == bridgeId && AmountsMatch(proof.amount, amount)
  }

  lemma DepositCheckSpelled(proof: Option<DepositProof>, bridgeId: string, amount: PriceTerm)
    ensures DepositCheck(proof, bridgeId, amount) == "" <==> proof.Some? && BacksClaim(proof.value, bridgeId, amount)
  {
    PositiveSpelled(amount);
    if proof.Some? {
      PositiveSpelled(proof.value.amount);
      if CanonicalPrice(amount).Some? && CanonicalPrice(proof.value.amount).Some? {
        PriceEqualExactlyWhen(proof.value.amount, amount);
      }
    }
  }

  predicate IsPositive(amount: PriceTerm) {
    CanonicalPrice(amount).Some? && Amount(amount) > 0.0
  }

  lemma PositiveSpelled(amount: PriceTerm)
    ensures IsPositiveAmount(amount) <==> IsPositive(amount)
  {
    if CanonicalPrice(amount).Some? {
      GuardsDecideSign(amount);
    }
  }

  /** The first thing wrong with the claimed amount or the deposit is what is reported. */
  lemma DepositFailureIsNamed(proof: Option<DepositProof>, bridgeId: string, amount: PriceTerm)
    ensures !IsPositive(amount) ==> DepositCheck(proof, bridgeId, amount) == "amount-not-positive"
    ensures IsPositive(amount) && proof.None? ==> DepositCheck(proof, bridgeId, amount) == "no-deposit-proof"
    ensures IsPositive(amount) && proof.Some? ==>
      var p := proof.value;
      && (!p.confirmed || p.confirmedAt.None? || p.confirmedAt.value == "" ==>
            DepositCheck(proof, bridgeId, amount) == "unconfirmed")
      && (p.confirmed && p.confirmedAt.Some? && p.confirmedAt.value != "" ==>
            if p.requiredConfirmations.Some?
               && (p.confirmations.None? || p.confirmations.value < p.requiredConfirmations.value)
            then DepositCheck(proof, bridgeId, amount) == "confirmations"
            else if p.bridgeId != bridgeId then DepositCheck(proof, bridgeId, amount) == "bridge"
            else if !IsPositive(p.amount) then DepositCheck(proof, bridgeId, amount) == "proof-amount-not-positive"
            else !BacksClaim(p, bridgeId, amount) ==> DepositCheck(proof, bridgeId, amount) == "amount-mismatch")
  {
    PositiveSpelled(amount);
    DepositCheckSpelled(proof, bridgeId, amount);
    if proof.Some? {
      PositiveSpelled(proof.value.amount);
    }
  }
}

/** verifyBridgeRelease of src/lib/settlement-evidence-verifier.ts. */
module BridgeRelease {
  import opened ByteStrings
  import opened Primitives
  import opened Price
  import opened Deposits
  import Quorum

  const BRIDGE_RELEASE_ATTESTATION := "dacs-bridge-release-attestation:v1:"

  datatype Evidence = Evidence(
    bridgeId: string,
    amount: PriceTerm,
    proof: Option<DepositProof>,
    signatures: seq<Quorum.ShardSignature>,
    releaseTx: string
  )

  function CommitmentJson(e: Evidence): Json
    requires e.proof.Some? && CanonicalPrice(e.amount).Some?
  {
    Obj(map[
      "bridge_id" := Str(e.bridgeId),
      "amount" := Obj(map["amount" := Str(CanonicalPrice(e.amount).value), "asset" := Str(e.amount.asset)]),
      "deposit_id" := Str(e.proof.value.depositId),
      "release_tx" := Str(e.releaseTx)])
  }

  function CommitmentBody(c: Crypto, e: Evidence): Option<Bytes>
    requires e.proof.Some? && CanonicalPrice(e.amount).Some?
  {
    match c.jcs(CommitmentJson(e))
    case None => None
    case Some(json) => Some(c.utf8(BytesToHex(c.hash(json))))
  }

  /** The deposit's confirmation came strictly before its window closed. */
  predicate InWindow(clock: Clock, p: DepositProof) {
    match (p.confirmedAt, p.depositWindowExpiry)
    case (Some(at), Some(expiry)) =>
      clock(at).Some? && clock(expiry).Some? && clock(at).value < clock(expiry).value
    case (None, Some(_)) => false
    case _ => true
  }

  /** The checks before the signatures are counted; Pass when all hold. */
  function Preconditions(clock: Clock, e: Evidence, o: Options): Verdict {
    if !Quorum.QuorumConfigured(o.requiredQuorum, o.shardSetSize) then Fail("quorum-config")
    else if DepositCheck(e.proof, e.bridgeId, e.amount) != "" then Fail(DepositCheck(e.proof, e.bridgeId, e.amount))
    else if o.consumedDepositLedger.None? then Indeterminate("no-ledger")
    else if e.proof.value.depositId in o.consumedDepositLedger.value then Fail("consumed")
    else if !InWindow(clock, e.proof.value) then Fail("window")
    else if |e.signatures| == 0 then Fail("no-signatures")
    else if o.authorizedShardSet.None? then Indeterminate("no-shard-set")
    else Pass
  }

  /** Who counts towards the quorum. */
  function Signers(c: Crypto, e: Evidence, shards: set<string>): set<string>
    requires e.proof.Some? && CanonicalPrice(e.amount).Some? && CommitmentBody(c, e).Some?
  {
    var check := Quorum.CheckOver(c, BRIDGE_RELEASE_ATTESTATION, CommitmentBody(c, e).value);
    Quorum.ValidSigners(check, e.signatures, shards)
  }

  /** Somebody signed exactly this commitment. */
  predicate SignedCommitment(c: Crypto, e: Evidence, signer: string) {
    && e.proof.Some? && CanonicalPrice(e.amount).Some? && CommitmentBody(c, e).Some?
    && Quorum.Signed(Quorum.CheckOver(c, BRIDGE_RELEASE_ATTESTATION, CommitmentBody(c, e).value), e.signatures, signer)
  }

  predicate Passes(c: Crypto, clock: Clock, e: Evidence, o: Options) {
    && Preconditions(clock, e, o) == Pass
    && e.proof.Some? && CanonicalPrice(e.amount).Some? && CommitmentBody(c, e).Some?
    && |Signers(c, e, Quorum.NormalisedShardSet(o.authorizedShardSet.value))| >= o.requiredQuorum
  }

  method VerifyBridgeRelease(c: Crypto, clock: Clock, e: Evidence, o: Options) returns (verdict: Verdict)
    ensures verdict == Pass <==> Passes(c, clock, e, o)
    ensures Preconditions(clock, e, o) != Pass ==> verdict == Preconditions(clock, e, o)
    ensures Preconditions(clock, e, o) == Pass ==> verdict in {Pass, Throws, Fail("sub-quorum")}
  {
    var shards: Option<set<string>> := None;
    if o.authorizedShardSet.Some? {
      var normalised := Quorum.NormaliseShardSet(o.authorizedShardSet.value);
      shards := Some(normalised);
    }
    var early := Preconditions(clock, e, o);
    if early != Pass {
      return early;
    }
    BoundDepositMatchesAmount(e.proof, e.bridgeId, e.amount);
    var body := CommitmentBody(c, e);
    if body.None? {
      return Throws;
    }
    var valid, rejected :=
      Quorum.CountSigners(Quorum.CheckOver(c, BRIDGE_RELEASE_ATTESTATION, body.value), e.signatures, shards.value);
    verdict := if |valid| < o.requiredQuorum then Fail("sub-quorum") else Pass;
  }

  /** Everything verdicts rest on but the signatures themselves. */
  function CaseOf(c: Crypto, clock: Clock, e: Evidence, o: Options): Quorum.Case {
    var buildable := e.proof.Some? && CanonicalPrice(e.amount).Some? && CommitmentBody(c, e).Some?;
    Quorum.Case(
      && buildable
      && Quorum.QuorumConfigured(o.requiredQuorum, o.shardSetSize)
      && DepositCheck(e.proof, e.bridgeId, e.amount) == ""
      && o.consumedDepositLedger.Some? && e.proof.value.depositId !in o.consumedDepositLedger.value
      && InWindow(clock, e.proof.value)
      && o.authorizedShardSet.Some?,
      if buildable
        then Quorum.CheckOver(c, BRIDGE_RELEASE_ATTESTATION, CommitmentBody(c, e).value) else Quorum.NoSignature,
      if o.authorizedShardSet.Some? then Quorum.NormalisedShardSet(o.authorizedShardSet.value) else {},
      o.requiredQuorum)
  }

  lemma CommitmentIgnoresSignatures(c: Crypto, e: Evidence, signatures: seq<Quorum.ShardSignature>)
    requires e.proof.Some? && CanonicalPrice(e.amount).Some?
    ensures CommitmentBody(c, e.(signatures := signatures)) == CommitmentBody(c, e)
  {
    assert CommitmentJson(e.(signatures := signatures)) == CommitmentJson(e);
  }

  /** The verdict is the quorum's, over everything but the signatures. */
  lemma PassesByCase(c: Crypto, clock: Clock, e: Evidence, o: Options, signatures: seq<Quorum.ShardSignature>)
    ensures Passes(c, clock, e.(signatures := signatures), o) <==> Quorum.Carried(CaseOf(c, clock, e, o), signatures)
  {
    if e.proof.Some? && CanonicalPrice(e.amount).Some? {
      CommitmentIgnoresSignatures(c, e, signatures);
    }
  }

  /** Extra, repeated, malformed or unauthorised signatures, wherever inserted, never turn a pass into a non-pass. */
  lemma ExtraSignatureKeepsPass(c: Crypto, clock: Clock, e: Evidence, o: Options, at: nat, s: Quorum.ShardSignature)
    requires Passes(c, clock, e, o) && at <= |e.signatures|
    ensures Passes(c, clock, e.(signatures := Quorum.Inserted(e.signatures, at, s)), o)
  {
    PassesByCase(c, clock, e, o, e.signatures);
    PassesByCase(c, clock, e, o, Quorum.Inserted(e.signatures, at, s));
    Quorum.InsertionKeepsCarried(CaseOf(c, clock, e, o), e.signatures, at, s);
  }

  /** Signatures that cannot count never turn a non-pass into a pass. */
  lemma UselessSignatureNeverHelps(c: Crypto, clock: Clock, e: Evidence, o: Options, at: nat, s: Quorum.ShardSignature)
    requires at <= |e.signatures|
    requires var q := CaseOf(c, clock, e, o); Quorum.Useless(q.check, e.signatures, s, q.authorized)
    ensures Passes(c, clock, e.(signatures := Quorum.Inserted(e.signatures, at, s)), o) <==> Passes(c, clock, e, o)
  {
    PassesByCase(c, clock, e, o, e.signatures);
    PassesByCase(c, clock, e, o, Quorum.Inserted(e.signatures, at, s));
    Quorum.UselessEntryDecidesNothing(CaseOf(c, clock, e, o), e.signatures, at, s);
  }

  // ------------------------------------------------------------- the verdict, spelled out

  /** What is signed: bridge, canonical amount and asset, deposit and release transaction, and nothing else. */
  lemma CommitmentSays(e: Evidence)
    requires e.proof.Some? && CanonicalPrice(e.amount).Some?
    ensures CommitmentJson(e) == Obj(map[
      "bridge_id" := Str(e.bridgeId),
      "amount" := Obj(map["amount" := Str(CanonicalPrice(e.amount).value), "asset" := Str(e.amount.asset)]),
      "deposit_id" := Str(e.proof.value.depositId), "release_tx" := Str(e.releaseTx)])
  {
  }

  /** The signed text: the hex hash of the canonical commitment. */
  function SignedText(c: Crypto, e: Evidence): Option<Bytes>
    requires e.proof.Some? && CanonicalPrice(e.amount).Some?
  {
    var json := c.jcs(CommitmentJson(e));
    if json.Some? then Some(c.utf8(BytesToHex(c.hash(json.value)))) else None
  }

  /** A deposit window, if there is one, closed after the deposit was confirmed. */
  predicate ConfirmedInTime(clock: Clock, p: DepositProof) {
    p.depositWindowExpiry.Some? ==>
      && p.confirmedAt.Some? && clock(p.confirmedAt.value).Some? && clock(p.depositWindowExpiry.value).Some?
      && clock(p.confirmedAt.value).value < clock(p.depositWindowExpiry.value).value
  }

  /**
   * A release passes exactly when a majority is asked for, a confirmed deposit of this bridge and amount backs it that
   * is known not to be consumed and was confirmed in time, and enough listed shards signed this very commitment.
   */
  lemma PassesExactlyWhen(c: Crypto, clock: Clock, e: Evidence, o: Options)
    ensures Passes(c, clock, e, o) <==>
      && o.requiredQuorum > 0 && (o.shardSetSize.Some? ==> 2 * o.requiredQuorum > o.shardSetSize.value)
      && e.proof.Some? && BacksClaim(e.proof.value, e.bridgeId, e.amount)
      && o.consumedDepositLedger.Some? && e.proof.value.depositId !in o.consumedDepositLedger.value
      && ConfirmedInTime(clock, e.proof.value)
      && e.signatures != [] && o.authorizedShardSet.Some? && SignedText(c, e).Some?
      && Quorum.IsCarried(c, "dacs-bridge-release-attestation:v1:", SignedText(c, e).value, e.signatures,
                          o.authorizedShardSet.value, o.requiredQuorum)
  {
    EarlyVerdictSpelled(clock, e, o);
    if e.proof.Some? && CanonicalPrice(e.amount).Some? && SignedText(c, e).Some? && o.authorizedShardSet.Some? {
      Quorum.QuorumSpelled(c, "dacs-bridge-release-attestation:v1:", SignedText(c, e).value, e.signatures,
                           o.authorizedShardSet.value, o.requiredQuorum);
    }
  }

  /** Before signatures count the first failing check is named; missing authorities leave the verdict undecided. */
  lemma EarlyVerdictSpelled(clock: Clock, e: Evidence, o: Options)
    ensures Preconditions(clock, e, o) ==
      if o.requiredQuorum <= 0 || (o.shardSetSize.Some? && 2 * o.requiredQuorum <= o.shardSetSize.value) then
        Fail("quorum-config")
      else if e.proof.None? || !BacksClaim(e.proof.value, e.bridgeId, e.amount) then
        Fail(DepositCheck(e.proof, e.bridgeId, e.amount))
      else if o.consumedDepositLedger.None? then Indeterminate("no-ledger")
      else if e.proof.value.depositId in o.consumedDepositLedger.value then Fail("consumed")
      else if !ConfirmedInTime(clock, e.proof.value) then Fail("window")
      else if e.signatures == [] then Fail("no-signatures")
      else if o.authorizedShardSet.None? then Indeterminate("no-shard-set")
      else Pass
  {
    Quorum.QuorumConfiguredExactlyWhen(o.requiredQuorum, o.shardSetSize);
    DepositCheckSpelled(e.proof, e.bridgeId, e.amount);
  }
}
