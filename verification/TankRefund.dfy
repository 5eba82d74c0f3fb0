/** verifyTankRefund of src/lib/tank-refund-evidence.ts. */
module TankRefund {
  import opened ByteStrings
  import opened Primitives
  import opened Price
  import opened Deposits
  import Quorum

  const TANK_REFUND_ATTESTATION := "dacs-tank-refund-attestation:v1:"

  datatype Evidence = Evidence(
    bridgeId: string,
    amount: PriceTerm,
    refundRecipient: string,
    proof: Option<DepositProof>,
    lockExpiry: string,
    refundedAfter: string,
    refundTx: string,
    signatures: seq<Quorum.ShardSignature>
  )

  function CommitmentJson(e: Evidence): Json
    requires e.proof.Some? && CanonicalPrice(e.amount).Some?
  {
    Obj(map[
      "bridge_id" := Str(e.bridgeId),
      "amount" := Obj(map["amount" := Str(CanonicalPrice(e.amount).value), "asset" := Str(e.amount.asset)]),
      "refundRecipient" := Str(e.refundRecipient),
      "deposit_id" := Str(e.proof.value.depositId),
      "lockExpiry" := Str(e.lockExpiry),
      "refundedAfter" := Str(e.refundedAfter),
      "refund_tx" := Str(e.refundTx)])
  }

  function CommitmentBody(c: Crypto, e: Evidence): Option<Bytes>
    requires e.proof.Some? && CanonicalPrice(e.amount).Some?
  {
    match c.jcs(CommitmentJson(e))
    case None => None
    case Some(json) => Some(c.utf8(BytesToHex(c.hash(json))))
  }

  /** The refund waited for the lock to expire. */
  predicate AfterExpiry(clock: Clock, e: Evidence) {
    && clock(e.refundedAfter).Some? && clock(e.lockExpiry).Some?
    && clock(e.refundedAfter).value >= clock(e.lockExpiry).value
  }

  predicate PaysDepositor(e: Evidence)
    requires e.proof.Some?
  {
    && e.proof.value.depositor.Some? && e.proof.value.depositor.value != ""
    && e.refundRecipient == e.proof.value.depositor.value
  }

  function Preconditions(clock: Clock, e: Evidence, o: Options): Verdict {
    if !Quorum.QuorumConfigured(o.requiredQuorum, o.shardSetSize) then Fail("quorum-config")
    else if DepositCheck(e.proof, e.bridgeId, e.amount) != "" then Fail(DepositCheck(e.proof, e.bridgeId, e.amount))
    else if !AfterExpiry(clock, e) then Fail("before-expiry")
    else if !PaysDepositor(e) then Fail("recipient")
    else if o.consumedDepositLedger.None? then Indeterminate("no-ledger")
    else if e.proof.value.depositId in o.consumedDepositLedger.value then Fail("consumed")
    else if |e.signatures| == 0 then Fail("no-signatures")
    else if o.authorizedShardSet.None? then Indeterminate("no-shard-set")
    else Pass
  }

  function Signers(c: Crypto, e: Evidence, shards: set<string>): set<string>
    requires e.proof.Some? && CanonicalPrice(e.amount).Some? && CommitmentBody(c, e).Some?
  {
    Quorum.ValidSigners(Quorum.CheckOver(c, TANK_REFUND_ATTESTATION, CommitmentBody(c, e).value), e.signatures, shards)
  }

  /** Somebody signed exactly this commitment. */
  predicate SignedCommitment(c: Crypto, e: Evidence, signer: string) {
    && e.proof.Some? && CanonicalPrice(e.amount).Some? && CommitmentBody(c, e).Some?
    && Quorum.Signed(Quorum.CheckOver(c, TANK_REFUND_ATTESTATION, CommitmentBody(c, e).value), e.signatures, signer)
  }

  predicate Passes(c: Crypto, clock: Clock, e: Evidence, o: Options) {
    && Preconditions(clock, e, o) == Pass
    && e.proof.Some? && CanonicalPrice(e.amount).Some? && CommitmentBody(c, e).Some?
    && |Signers(c, e, Quorum.NormalisedShardSet(o.authorizedShardSet.value))| >= o.requiredQuorum
  }

  method VerifyTankRefund(c: Crypto, clock: Clock, e: Evidence, o: Options) returns (verdict: Verdict)
    ensures verdict == Pass <==> Passes(c, clock, e, o)
    ensures Preconditions(clock, e, o) != Pass ==> verdict == Preconditions(clock, e, o)
    ensures Preconditions(clock, e, o) == Pass ==> verdict in {Pass, Throws, Fail("sub-quorum")}
  {
    var shards: Option<set<string>> := None;
    if o.authorizedShardSet.Some? {
      var normalised := Quorum.NormaliseShardSet(o.authorizedShardSet.value);
      shards := Some(normalised);
    }
    var early := Preconditions(clock, e, o);
    if early != Pass {
      return early;
    }
    BoundDepositMatchesAmount(e.proof, e.bridgeId, e.amount);
    var body := CommitmentBody(c, e);
    if body.None? {
      return Throws;
    }
    var valid, rejected :=
      Quorum.CountSigners(Quorum.CheckOver(c, TANK_REFUND_ATTESTATION, body.value), e.signatures, shards.value);
    verdict := if |valid| < o.requiredQuorum then Fail("sub-quorum") else Pass;
  }

  /** Everything verdicts rest on but the signatures themselves. */
  function CaseOf(c: Crypto, clock: Clock, e: Evidence, o: Options): Quorum.Case {
    var buildable := e.proof.Some? && CanonicalPrice(e.amount).Some? && CommitmentBody(c, e).Some?;
    Quorum.Case(
      && buildable
      && Quorum.QuorumConfigured(o.requiredQuorum, o.shardSetSize)
      && DepositCheck(e.proof, e.bridgeId, e.amount) == ""
      && AfterExpiry(clock, e) && PaysDepositor(e)
      && o.consumedDepositLedger.Some? && e.proof.value.depositId !in o.consumedDepositLedger.value
      && o.authorizedShardSet.Some?,
      if buildable
        then Quorum.CheckOver(c, TANK_REFUND_ATTESTATION, CommitmentBody(c, e).value) else Quorum.NoSignature,
      if o.authorizedShardSet.Some? then Quorum.NormalisedShardSet(o.authorizedShardSet.value) else {},
      o.requiredQuorum)
  }

  lemma CommitmentIgnoresSignatures(c: Crypto, e: Evidence, signatures: seq<Quorum.ShardSignature>)
    requires e.proof.Some? && CanonicalPrice(e.amount).Some?
    ensures CommitmentBody(c, e.(signatures := signatures)) == CommitmentBody(c, e)
  {
    assert CommitmentJson(e.(signatures := signatures)) == CommitmentJson(e);
  }

  /** The verdict is the quorum's, over everything but the signatures. */
  lemma PassesByCase(c: Crypto, clock: Clock, e: Evidence, o: Options, signatures: seq<Quorum.ShardSignature>)
    ensures Passes(c, clock, e.(signatures := signatures), o) <==> Quorum.Carried(CaseOf(c, clock, e, o), signatures)
  {
    if e.proof.Some? && CanonicalPrice(e.amount).Some? {
      CommitmentIgnoresSignatures(c, e, signatures);
    }
  }

  /** Extra, repeated, malformed or unauthorised signatures, wherever inserted, never turn a pass into a non-pass. */
  lemma ExtraSignatureKeepsPass(c: Crypto, clock: Clock, e: Evidence, o: Options, at: nat, s: Quorum.ShardSignature)
    requires Passes(c, clock, e, o) && at <= |e.signatures|
    ensures Passes(c, clock, e.(signatures := Quorum.Inserted(e.signatures, at, s)), o)
  {
    PassesByCase(c, clock, e, o, e.signatures);
    PassesByCase(c, clock, e, o, Quorum.Inserted(e.signatures, at, s));
    Quorum.InsertionKeepsCarried(CaseOf(c, clock, e, o), e.signatures, at, s);
  }

  /** Signatures that cannot count never turn a non-pass into a pass. */
  lemma UselessSignatureNeverHelps(c: Crypto, clock: Clock, e: Evidence, o: Options, at: nat, s: Quorum.ShardSignature)
    requires at <= |e.signatures|
    requires var q := CaseOf(c, clock, e, o); Quorum.Useless(q.check, e.signatures, s, q.authorized)
    ensures Passes(c, clock, e.(signatures := Quorum.Inserted(e.signatures, at, s)), o) <==> Passes(c, clock, e, o)
  {
    PassesByCase(c, clock, e, o, e.signatures);
    PassesByCase(c, clock, e, o, Quorum.Inserted(e.signatures, at, s));
    Quorum.UselessEntryDecidesNothing(CaseOf(c, clock, e, o), e.signatures, at, s);
  }

  // ------------------------------------------------------------- the verdict, spelled out

  /** What is signed: bridge, canonical amount and asset, recipient, deposit, both times and the transaction. */
  lemma CommitmentSays(e: Evidence)
    requires e.proof.Some? && CanonicalPrice(e.amount).Some?
    ensures CommitmentJson(e) == Obj(map[
      "bridge_id" := Str(e.bridgeId),
      "amount" := Obj(map["amount" := Str(CanonicalPrice(e.amount).value), "asset" := Str(e.amount.asset)]),
      "refundRecipient" := Str(e.refundRecipient), "deposit_id" := Str(e.proof.value.depositId),
      "lockExpiry" := Str(e.lockExpiry), "refundedAfter" := Str(e.refundedAfter), "refund_tx" := Str(e.refundTx)])
  {
  }

  /** The signed text: the hex hash of the canonical commitment. */
  function SignedText(c: Crypto, e: Evidence): Option<Bytes>
    requires e.proof.Some? && CanonicalPrice(e.amount).Some?
  {
    var json := c.jcs(CommitmentJson(e));
    if json.Some? then Some(c.utf8(BytesToHex(c.hash(json.value)))) else None
  }

  /** Both times can be read and the refund is not before the expiry. */
  predicate IsDue(clock: Clock, e: Evidence) {
    var refunded, expiry := clock(e.refundedAfter), clock(e.lockExpiry);
    refunded.Some? && expiry.Some? && expiry.value <= refunded.value
  }

  /**
   * A refund passes exactly when a majority is asked for, a confirmed deposit of this bridge and amount backs it that
   * is known not to be consumed, the lock has expired, its depositor is paid, and enough listed shards signed this.
   */
  lemma PassesExactlyWhen(c: Crypto, clock: Clock, e: Evidence, o: Options)
    ensures Passes(c, clock, e, o) <==>
      && o.requiredQuorum > 0 && (o.shardSetSize.Some? ==> 2 * o.requiredQuorum > o.shardSetSize.value)
      && e.proof.Some? && BacksClaim(e.proof.value, e.bridgeId, e.amount)
      && IsDue(clock, e) && e.refundRecipient != "" && e.proof.value.depositor == Some(e.refundRecipient)
      && o.consumedDepositLedger.Some? && e.proof.value.depositId !in o.consumedDepositLedger.value
      && e.signatures != [] && o.authorizedShardSet.Some? && SignedText(c, e).Some?
      && Quorum.IsCarried(c, "dacs-tank-refund-attestation:v1:", SignedText(c, e).value, e.signatures,
                          o.authorizedShardSet.value, o.requiredQuorum)
  {
    EarlyVerdictSpelled(clock, e, o);
    if e.proof.Some? && CanonicalPrice(e.amount).Some? && SignedText(c, e).Some? && o.authorizedShardSet.Some? {
      Quorum.QuorumSpelled(c, "dacs-tank-refund-attestation:v1:", SignedText(c, e).value, e.signatures,
                           o.authorizedShardSet.value, o.requiredQuorum);
    }
  }

  /** Before signatures count the first failing check is named; missing authorities leave the verdict undecided. */
  lemma EarlyVerdictSpelled(clock: Clock, e: Evidence, o: Options)
    ensures Preconditions(clock, e, o) ==
      if o.requiredQuorum <= 0 || (o.shardSetSize.Some? && 2 * o.requiredQuorum <= o.shardSetSize.value) then
        Fail("quorum-config")
      else if e.proof.None? || !BacksClaim(e.proof.value, e.bridgeId, e.amount) then
        Fail(DepositCheck(e.proof, e.bridgeId, e.amount))
      else if !IsDue(clock, e) then Fail("before-expiry")
      else if e.refundRecipient == "" || e.proof.value.depositor != Some(e.refundRecipient) then Fail("recipient")
      else if o.consumedDepositLedger.None? then Indeterminate("no-ledger")
      else if e.proof.value.depositId in o.consumedDepositLedger.value then Fail("consumed")
      else if e.signatures == [] then Fail("no-signatures")
      else if o.authorizedShardSet.None? then Indeterminate("no-shard-set")
      else Pass
  {
    Quorum.QuorumConfiguredExactlyWhen(o.requiredQuorum, o.shardSetSize);
    DepositCheckSpelled(e.proof, e.bridgeId, e.amount);
  }
}
