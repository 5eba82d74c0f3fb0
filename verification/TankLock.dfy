/** verifyTankLock of src/lib/tank-lock-evidence.ts. */
module TankLock {
  import opened ByteStrings
  import opened Primitives
  import opened Price
  import opened Deposits
  import Quorum

  const TANK_LOCK_ATTESTATION := "dacs-tank-lock-attestation:v1:"
  const KNOWN_STATES := {"locked", "partially_released", "released", "expired"}

  datatype Evidence = Evidence(
    bridgeId: string,
    amount: PriceTerm,
    lockState: string,
    releasedAmount: Option<PriceTerm>,
    lockExpiry: string,
    proof: Option<DepositProof>,
    signatures: seq<Quorum.ShardSignature>
  )

  function PriceJson(p: PriceTerm): Option<Json> {
    match CanonicalPrice(p)
    case None => None
    case Some(text) => Some(Obj(map["amount" := Str(text), "asset" := Str(p.asset)]))
  }

  /** A released amount in any state enters the commitment, so an unreadable one makes the build throw. */
  function CommitmentBody(c: Crypto, e: Evidence): Option<Bytes>
    requires e.proof.Some?
  {
    match (PriceJson(e.amount), if e.releasedAmount.Some? then PriceJson(e.releasedAmount.value) else Some(Null))
    case (Some(amount), Some(released)) =>
      (match c.jcs(Obj(map[
        "bridge_id" := Str(e.bridgeId),
        "amount" := amount,
        "lockState" := Str(e.lockState),
        "releasedAmount" := released,
        "lockExpiry" := Str(e.lockExpiry),
        "deposit_id" := Str(e.proof.value.depositId)]))
       case None => None
       case Some(json) => Some(c.utf8(BytesToHex(c.hash(json)))))
    case _ => None
  }

  /** The first failed ceiling check of a partial release; "" when there is none. */
  function ReleaseCheck(e: Evidence): string {
    if e.lockState != "partially_released" then ""
    else if e.releasedAmount.None? then "released-absent"
    else if e.releasedAmount.value.asset != e.amount.asset then "released-asset"
    else if !IsNonNegativeAmount(e.releasedAmount.value) then "released-negative"
    else if !PriceLessOrEqual(e.releasedAmount.value, e.amount) then "released-exceeds"
    else ""
  }

  function Preconditions(e: Evidence, o: Options): Verdict {
    if !Quorum.QuorumConfigured(o.requiredQuorum, o.shardSetSize) then Fail("quorum-config")
    else if e.lockState !in KNOWN_STATES then Fail("state")
    else if DepositCheck(e.proof, e.bridgeId, e.amount) != "" then Fail(DepositCheck(e.proof, e.bridgeId, e.amount))
    else if o.consumedDepositLedger.Some? && e.proof.value.depositId in o.consumedDepositLedger.value
      then Fail("consumed")
    else if ReleaseCheck(e) != "" then Fail(ReleaseCheck(e))
    else if |e.signatures| == 0 then Fail("no-signatures")
    else if o.authorizedShardSet.None? then Indeterminate("no-shard-set")
    else Pass
  }

  predicate Passes(c: Crypto, e: Evidence, o: Options) {
    && Preconditions(e, o) == Pass
    && e.proof.Some? && CommitmentBody(c, e).Some?
    && |Quorum.ValidSigners(Quorum.CheckOver(c, TANK_LOCK_ATTESTATION, CommitmentBody(c, e).value), e.signatures,
          Quorum.NormalisedShardSet(o.authorizedShardSet.value))| >= o.requiredQuorum
  }

  method VerifyTankLock(c: Crypto, e: Evidence, o: Options) returns (verdict: Verdict)
    ensures verdict == Pass <==> Passes(c, e, o)
    ensures Preconditions(e, o) != Pass ==> verdict == Preconditions(e, o)
    ensures Preconditions(e, o) == Pass ==> verdict in {Pass, Throws, Fail("sub-quorum")}
  {
    var shards: Option<set<string>> := None;
    if o.authorizedShardSet.Some? {
      var normalised := Quorum.NormaliseShardSet(o.authorizedShardSet.value);
      shards := Some(normalised);
    }
    var early := Preconditions(e, o);
    if early != Pass {
      return early;
    }
    var body := CommitmentBody(c, e);
    if body.None? {
      return Throws;
    }
    var valid, rejected :=
      Quorum.CountSigners(Quorum.CheckOver(c, TANK_LOCK_ATTESTATION, body.value), e.signatures, shards.value);
    verdict := if |valid| < o.requiredQuorum then Fail("sub-quorum") else Pass;
  }

  /** Everything verdicts rest on but the signatures themselves. */
  function CaseOf(c: Crypto, e: Evidence, o: Options): Quorum.Case {
    var buildable := e.proof.Some? && CommitmentBody(c, e).Some?;
    Quorum.Case(
      && buildable
      && Quorum.QuorumConfigured(o.requiredQuorum, o.shardSetSize)
      && e.lockState in KNOWN_STATES
      && DepositCheck(e.proof, e.bridgeId, e.amount) == ""
      && (o.consumedDepositLedger.Some? ==> e.proof.value.depositId !in o.consumedDepositLedger.value)
      && ReleaseCheck(e) == ""
      && o.authorizedShardSet.Some?,
      if buildable then Quorum.CheckOver(c, TANK_LOCK_ATTESTATION, CommitmentBody(c, e).value) else Quorum.NoSignature,
      if o.authorizedShardSet.Some? then Quorum.NormalisedShardSet(o.authorizedShardSet.value) else {},
      o.requiredQuorum)
  }

  lemma CommitmentIgnoresSignatures(c: Crypto, e: Evidence, signatures: seq<Quorum.ShardSignature>)
    requires e.proof.Some?
    ensures CommitmentBody(c, e.(signatures := signatures)) == CommitmentBody(c, e)
  {
  }

  /** The verdict is the quorum's, over everything but the signatures. */
  lemma PassesByCase(c: Crypto, e: Evidence, o: Options, signatures: seq<Quorum.ShardSignature>)
    ensures Passes(c, e.(signatures := signatures), o) <==> Quorum.Carried(CaseOf(c, e, o), signatures)
  {
    if e.proof.Some? {
      CommitmentIgnoresSignatures(c, e, signatures);
    }
  }

  /** Extra, repeated, malformed or unauthorised signatures, wherever inserted, never turn a pass into a non-pass. */
  lemma ExtraSignatureKeepsPass(c: Crypto, e: Evidence, o: Options, at: nat, s: Quorum.ShardSignature)
    requires Passes(c, e, o) && at <= |e.signatures|
    ensures Passes(c, e.(signatures := Quorum.Inserted(e.signatures, at, s)), o)
  {
    PassesByCase(c, e, o, e.signatures);
    PassesByCase(c, e, o, Quorum.Inserted(e.signatures, at, s));
    Quorum.InsertionKeepsCarried(CaseOf(c, e, o), e.signatures, at, s);
  }

  /** Signatures that cannot count never turn a non-pass into a pass. */
  lemma UselessSignatureNeverHelps(c: Crypto, e: Evidence, o: Options, at: nat, s: Quorum.ShardSignature)
    requires at <= |e.signatures|
    requires var q := CaseOf(c, e, o); Quorum.Useless(q.check, e.signatures, s, q.authorized)
    ensures Passes(c, e.(signatures := Quorum.Inserted(e.signatures, at, s)), o) <==> Passes(c, e, o)
  {
    PassesByCase(c, e, o, e.signatures);
    PassesByCase(c, e, o, Quorum.Inserted(e.signatures, at, s));
    Quorum.UselessEntryDecidesNothing(CaseOf(c, e, o), e.signatures, at, s);
  }

  /** Every passing lock holds a positive rational; a partial release lies between zero and it. */
  lemma PassingLockIsBounded(c: Crypto, e: Evidence, o: Options)
    requires Passes(c, e, o)
    ensures CanonicalPrice(e.amount).Some? && Amount(e.amount) > 0.0
    ensures e.lockState == "partially_released" ==>
      (e.releasedAmount.Some? && CanonicalPrice(e.releasedAmount.value).Some?
        && 0.0 <= Amount(e.releasedAmount.value) <= Amount(e.amount))
  {
    BoundDepositMatchesAmount(e.proof, e.bridgeId, e.amount);
    if e.lockState == "partially_released" {
      GuardsDecideSign(e.releasedAmount.value);
      ComparisonIsExact(e.releasedAmount.value, e.amount);
    }
  }

  /** The ceiling check never misjudges: a partial release of the same asset is refused exactly when it lies outside. */
  lemma ReleaseCheckIsExact(e: Evidence)
    requires e.lockState == "partially_released" && CanonicalPrice(e.amount).Some?
    requires e.releasedAmount.Some? && CanonicalPrice(e.releasedAmount.value).Some?
    ensures ReleaseCheck(e) == "" <==>
      e.releasedAmount.value.asset == e.amount.asset && 0.0 <= Amount(e.releasedAmount.value) <= Amount(e.amount)
  {
    GuardsDecideSign(e.releasedAmount.value);
    ComparisonIsExact(e.releasedAmount.value, e.amount);
  }

  // ------------------------------------------------------------- the verdict, spelled out

  /** A price as the commitment writes it. */
  function CommittedPrice(p: PriceTerm): Json
    requires CanonicalPrice(p).Some?
  {
    Obj(map["amount" := Str(CanonicalPrice(p).value), "asset" := Str(p.asset)])
  }

  /** Both prices of the commitment can be written. */
  predicate PricesAreReadable(e: Evidence) {
    && CanonicalPrice(e.amount).Some?
    && (e.releasedAmount.Some? ==> CanonicalPrice(e.releasedAmount.value).Some?)
  }

  /** What is signed: bridge, amount, state, released amount or null, expiry and deposit. */
  function SignedCommitmentJson(e: Evidence): Json
    requires e.proof.Some? && PricesAreReadable(e)
  {
    Obj(map[
      "bridge_id" := Str(e.bridgeId), "amount" := CommittedPrice(e.amount), "lockState" := Str(e.lockState),
      "releasedAmount" := if e.releasedAmount.Some? then CommittedPrice(e.releasedAmount.value) else Null,
      "lockExpiry" := Str(e.lockExpiry), "deposit_id" := Str(e.proof.value.depositId)])
  }

  lemma CommitmentSays(c: Crypto, e: Evidence)
    requires e.proof.Some?
    ensures CommitmentBody(c, e).Some? <==> PricesAreReadable(e) && c.jcs(SignedCommitmentJson(e)).Some?
    ensures CommitmentBody(c, e).Some? ==>
      CommitmentBody(c, e).value == c.utf8(BytesToHex(c.hash(c.jcs(SignedCommitmentJson(e)).value)))
  {
    if PricesAreReadable(e) {
      assert PriceJson(e.amount) == Some(CommittedPrice(e.amount));
      assert e.releasedAmount.Some? ==>
        PriceJson(e.releasedAmount.value) == Some(CommittedPrice(e.releasedAmount.value));
    }
  }

  /** Only a partial release is bounded: of the same asset, from nothing up to the whole. */
  predicate ReleasesAPart(e: Evidence) {
    e.lockState == "partially_released" ==>
      && e.releasedAmount.Some? && e.releasedAmount.value.asset == e.amount.asset
      && CanonicalPrice(e.releasedAmount.value).Some? && CanonicalPrice(e.amount).Some?
      && 0.0 <= Amount(e.releasedAmount.value) <= Amount(e.amount)
  }

  lemma ReleaseSpelled(e: Evidence)
    ensures ReleaseCheck(e) == "" <==> ReleasesAPart(e)
    ensures e.lockState == "partially_released" ==>
      && (e.releasedAmount.None? ==> ReleaseCheck(e) == "released-absent")
      && (e.releasedAmount.Some? && e.releasedAmount.value.asset != e.amount.asset ==>
            ReleaseCheck(e) == "released-asset")
      && (e.releasedAmount.Some? && e.releasedAmount.value.asset == e.amount.asset
          && CanonicalPrice(e.releasedAmount.value).Some? && CanonicalPrice(e.amount).Some? ==>
            && (Amount(e.releasedAmount.value) < 0.0 ==> ReleaseCheck(e) == "released-negative")
            && (Amount(e.releasedAmount.value) > Amount(e.amount) >= 0.0 ==> ReleaseCheck(e) == "released-exceeds"))
  {
    if e.releasedAmount.Some? && CanonicalPrice(e.releasedAmount.value).Some? {
      GuardsDecideSign(e.releasedAmount.value);
      if CanonicalPrice(e.amount).Some? {
        ComparisonIsExact(e.releasedAmount.value, e.amount);
      }
    }
  }

  predicate IsAState(state: string) {
    state == "locked" || state == "partially_released" || state == "released" || state == "expired"
  }

  /**
   * A lock passes exactly when a majority is asked for, its state is known, a confirmed deposit of this bridge and
   * amount backs it that is not known to be consumed, a partial release is a part, and enough listed shards signed
   * this.
   */
  lemma PassesExactlyWhen(c: Crypto, e: Evidence, o: Options)
    ensures Passes(c, e, o) <==>
      && o.requiredQuorum > 0 && (o.shardSetSize.Some? ==> 2 * o.requiredQuorum > o.shardSetSize.value)
      && IsAState(e.lockState) && e.proof.Some? && BacksClaim(e.proof.value, e.bridgeId, e.amount)
      && (o.consumedDepositLedger.Some? ==> e.proof.value.depositId !in o.consumedDepositLedger.value)
      && ReleasesAPart(e) && e.signatures != [] && o.authorizedShardSet.Some?
      && PricesAreReadable(e) && c.jcs(SignedCommitmentJson(e)).Some?
      && Quorum.IsCarried(c, "dacs-tank-lock-attestation:v1:",
           c.utf8(BytesToHex(c.hash(c.jcs(SignedCommitmentJson(e)).value))), e.signatures, o.authorizedShardSet.value,
           o.requiredQuorum)
  {
    EarlyVerdictSpelled(e, o);
    if e.proof.Some? {
      CommitmentSays(c, e);
      if CommitmentBody(c, e).Some? && o.authorizedShardSet.Some? {
        Quorum.QuorumSpelled(c, "dacs-tank-lock-attestation:v1:", CommitmentBody(c, e).value, e.signatures,
                             o.authorizedShardSet.value, o.requiredQuorum);
      }
    }
  }

  /** Before signatures count the first failing check is named; a missing shard set leaves the verdict undecided. */
  lemma EarlyVerdictSpelled(e: Evidence, o: Options)
    ensures Preconditions(e, o) ==
      if o.requiredQuorum <= 0 || (o.shardSetSize.Some? && 2 * o.requiredQuorum <= o.shardSetSize.value) then
        Fail("quorum-config")
      else if !IsAState(e.lockState) then Fail("state")
      else if e.proof.None? || !BacksClaim(e.proof.value, e.bridgeId, e.amount) then
        Fail(DepositCheck(e.proof, e.bridgeId, e.amount))
      else if o.consumedDepositLedger.Some? && e.proof.value.depositId in o.consumedDepositLedger.value then
        Fail("consumed")
      else if !ReleasesAPart(e) then Fail(ReleaseCheck(e))
      else if e.signatures == [] then Fail("no-signatures")
      else if o.authorizedShardSet.None? then Indeterminate("no-shard-set")
      else Pass
  {
    Quorum.QuorumConfiguredExactlyWhen(o.requiredQuorum, o.shardSetSize);
    DepositCheckSpelled(e.proof, e.bridgeId, e.amount);
    ReleaseSpelled(e);
  }
}
